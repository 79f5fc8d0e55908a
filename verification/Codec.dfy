/** The value codec: crud/encode_sqlarg.go on the way in, crud/dbscan.go on the way out. */
module Codec {
  import opened Prelude
  import opened Sqldb
  import opened Text
  import opened Message
  import Float64
  import PgArray

  datatype CodecError = NotAMap | NotASlice | NotAMessage | BadKey(text: string) | BadValue

  // ---------- Encoding ----------

  /** json.Marshal of a scalar or of a list of scalars. */
  function JsonOf(v: GoVal): Json {
    match v
    case Bool(b) => JBool(b)
    case Int(n) => JInt(n)
    case Real(r) => JReal(r)
    case Str(s) => JStr(s)
    case Bytes(bs) => JBytes(bs)
    case Enum(n, _) => JInt(n)
    case Ptr(t) => JsonOf(t)
    case Msg(m) => JMsg(m)
    case Slice(es) => JArr(seq(|es|, i requires 0 <= i < |es| => JsonOf(es[i])))
    case JsonText(j) => j
    case _ => JNull
  }

  /** fmt.Sprint of a map key. */
  function KeyText(k: MapKey): string {
    match k
    case KBool(b) => if b then "true" else "false"
    case KInt(n) => Itoa(n)
    case KStr(s) => s
  }

  predicate KeyOfKind(kind: Kind, k: MapKey) {
    match k
    case KBool(_) => kind == BoolKind
    case KInt(n) => IntegerKind(kind) && InKind(kind, n)
    case KStr(_) => kind == StringKind
  }

  /** What the type system guarantees of a Go map held by a field. */
  ghost predicate KeysOfKind(kind: Kind, m: map<MapKey, GoVal>) {
    forall k :: k in m ==> KeyOfKind(kind, k)
  }

  lemma KeyTextInjective(kind: Kind, a: MapKey, b: MapKey)
    requires KeyOfKind(kind, a) && KeyOfKind(kind, b) && KeyText(a) == KeyText(b)
    ensures a == b
  {
    if a.KInt? {
      ItoaInjective(a.n, b.n);
    }
  }

  predicate Present(m: map<MapKey, GoVal>, k: MapKey) {
    k in m && m[k] != NilPtr
  }

  /** The object has one member per present value of the map, under the key's printed text. */
  ghost predicate Writes(m: map<MapKey, GoVal>, r: map<string, Json>) {
    && (forall k :: Present(m, k) ==> KeyText(k) in r && r[KeyText(k)] == JsonOf(m[k]))
    && (forall t :: t in r ==> exists k :: Present(m, k) && KeyText(k) == t)
  }

  lemma WritesUnique(m: map<MapKey, GoVal>, r1: map<string, Json>, r2: map<string, Json>)
    requires Writes(m, r1) && Writes(m, r2)
    ensures r1 == r2
  {
    assert r1.Keys == r2.Keys;
    forall t | t in r1
      ensures r1[t] == r2[t]
    {
      var k :| Present(m, k) && KeyText(k) == t;
    }
  }

  /** The JSON object written for a map. */
  ghost function MapObject(kind: Kind, m: map<MapKey, GoVal>): (r: map<string, Json>)
    requires KeysOfKind(kind, m)
    ensures Writes(m, r)
  {
    assert forall a, b :: Present(m, a) && Present(m, b) && KeyText(a) == KeyText(b) ==> a == b by {
      forall a, b | Present(m, a) && Present(m, b) && KeyText(a) == KeyText(b)
        ensures a == b
      {
        KeyTextInjective(kind, a, b);
      }
    }
    map k | k in m && Present(m, k) :: KeyText(k) := JsonOf(m[k])
  }

  predicate MessagesOnly(vs: set<GoVal>) {
    forall v :: v in vs ==> v == NilPtr || v.Msg?
  }

  /** The messages of a list, nil elements dropped. */
  function MessageList(es: seq<GoVal>): seq<Json> {
    if es == [] then []
    else MessageList(es[..|es| - 1]) + (if es[|es| - 1].Msg? then [JMsg(es[|es| - 1].msg)] else [])
  }

  /** Go's conversion of a uint64 to int64. */
  function ToSigned64(n: int): int {
    if n < TWO63 then n else n - TWO64
  }

  function SignedAll(es: seq<GoVal>): (r: seq<GoVal>)
    ensures |r| == |es|
    ensures forall i :: 0 <= i < |es| ==> r[i] == if es[i].Int? then Int(ToSigned64(es[i].n)) else es[i]
  {
    seq(|es|, i requires 0 <= i < |es| => if es[i].Int? then Int(ToSigned64(es[i].n)) else es[i])
  }

  /** What EncodeSQLArg returns. */
  ghost function Encoded(field: FieldDesc, dialect: Dialect, v: GoVal): Result<GoVal, CodecError>
    requires field.IsMap() && v.MapVal? ==> KeysOfKind(field.card.key, v.m)
  {
    if v == Nil || v == NullString then Ok(v)
    else match field.card
      case MapOf(key) =>
        if !v.MapVal? then Err(NotAMap)
        else if field.kind == MessageKind && !MessagesOnly(v.m.Values) then Err(NotAMessage)
        else Ok(JsonText(JObj(MapObject(key, v.m))))
      case ListOf =>
        if field.kind == MessageKind then
          if !v.Slice? then Err(NotASlice)
          else if !MessagesOnly(Elems(v.elems)) then Err(NotAMessage)
          else Ok(JsonText(JArr(MessageList(v.elems))))
        else if dialect == Postgres && field.kind in {Uint32Kind, Uint64Kind} && v.Slice? then
          Ok(Slice(SignedAll(v.elems)))
        else if dialect == SQLite || dialect == Mysql then Ok(JsonText(JsonOf(v)))
        else Ok(v)
      case Singular =>
        if field.kind != MessageKind then Ok(v)
        else if v.Msg? then Ok(JsonText(JMsg(v.msg)))
        else if v == NilPtr then Ok(JsonText(JObj(map[])))
        else Err(NotAMessage)
  }

  lemma WritesAdd(kind: Kind, m: map<MapKey, GoVal>, rest: set<MapKey>, k: MapKey, r: map<string, Json>)
    requires KeysOfKind(kind, m) && k in rest && k in m && Writes(m - rest, r)
    ensures Writes(m - (rest - {k}), if m[k] == NilPtr then r else r[KeyText(k) := JsonOf(m[k])])
  {
    var small, big := m - rest, m - (rest - {k});
    assert forall a :: Present(big, a) <==> Present(small, a) || (a == k && m[k] != NilPtr);
    forall a | Present(small, a)
      ensures KeyText(a) != KeyText(k)
    {
      if KeyText(a) == KeyText(k) {
        KeyTextInjective(kind, a, k);
      }
    }
  }

  predicate ValueFits(field: FieldDesc, v: GoVal) {
    field.kind == MessageKind ==> v == NilPtr || v.Msg?
  }

  lemma MapEncoded(field: FieldDesc, dialect: Dialect, m: map<MapKey, GoVal>, out: map<string, Json>)
    requires field.IsMap() && KeysOfKind(field.card.key, m)
    requires Writes(m, out) && forall k :: k in m ==> ValueFits(field, m[k])
    ensures Encoded(field, dialect, MapVal(m)) == Ok(JsonText(JObj(out)))
  {
    WritesUnique(m, out, MapObject(field.card.key, m));
  }

  /** One member of a map: nil pointers are left out, and a message field holds messages. */
  method EncodeMember(field: FieldDesc, m: map<MapKey, GoVal>, ghost rest: set<MapKey>, k: MapKey,
                      out: map<string, Json>)
    returns (ok: bool, out': map<string, Json>)
    requires field.IsMap() && KeysOfKind(field.card.key, m) && k in rest && k in m && Writes(m - rest, out)
    ensures ok <==> ValueFits(field, m[k])
    ensures ok ==> Writes(m - (rest - {k}), out')
  {
    WritesAdd(field.card.key, m, rest, k, out);
    ok, out' := true, out;
    var mv := m[k];
    if mv == NilPtr {
      return;
    }
    if field.kind == MessageKind {
      if !mv.Msg? {
        return false, out;
      }
      out' := out'[KeyText(k) := JMsg(mv.msg)];
      return;
    }
    out' := out'[KeyText(k) := JsonOf(mv)];
  }

  method EncodeMap(field: FieldDesc, dialect: Dialect, v: GoVal) returns (r: Result<GoVal, CodecError>)
    requires field.IsMap() && v != Nil && v != NullString
    requires v.MapVal? ==> KeysOfKind(field.card.key, v.m)
    ensures r == Encoded(field, dialect, v)
  {
    if !v.MapVal? {
      return Err(NotAMap);
    }
    var m := v.m;
    var out: map<string, Json> := map[];
    var rest := m.Keys;
    while rest != {}
      invariant rest <= m.Keys
      invariant Writes(m - rest, out)
      invariant forall k :: k in m && k !in rest ==> ValueFits(field, m[k])
      decreases rest
    {
      var k :| k in rest;
      var ok;
      ok, out := EncodeMember(field, m, rest, k, out);
      if !ok {
        assert m[k] in m.Values;
        return Err(NotAMessage);
      }
      rest := rest - {k};
    }
    assert m - rest == m;
    MapEncoded(field, dialect, m, out);
    r := Ok(JsonText(JObj(out)));
  }

  method EncodeSQLArg(field: FieldDesc, dialect: Dialect, goValue: GoVal) returns (r: Result<GoVal, CodecError>)
    requires field.IsMap() && goValue.MapVal? ==> KeysOfKind(field.card.key, goValue.m)
    ensures r == Encoded(field, dialect, goValue)
  {
    var v := goValue;
    if v == Nil || v == NullString {
      return Ok(v);
    }
    if field.IsMap() {
      r := EncodeMap(field, dialect, v);
      return;
    }
    if field.IsList() {
      if dialect == Postgres && (field.kind == Uint32Kind || field.kind == Uint64Kind) && v.Slice? {
        var out: seq<GoVal> := [];
        for i := 0 to |v.elems|
          invariant out == SignedAll(v.elems)[..i]
        {
          var x := v.elems[i];
          out := out + [if x.Int? then Int(ToSigned64(x.n)) else x];
        }
        assert out == SignedAll(v.elems);
        v := Slice(out);
      }
      if field.kind == MessageKind {
        if !v.Slice? {
          return Err(NotASlice);
        }
        var raws: seq<Json> := [];
        for i := 0 to |v.elems|
          invariant raws == MessageList(v.elems[..i])
          invariant forall j :: 0 <= j < i ==> v.elems[j] == NilPtr || v.elems[j].Msg?
        {
          var e := v.elems[i];
          assert v.elems[..i + 1][..i] == v.elems[..i];
          if e == NilPtr {
            continue;
          }
          if !e.Msg? {
            assert e in Elems(v.elems);
            return Err(NotAMessage);
          }
          raws := raws + [JMsg(e.msg)];
        }
        assert v.elems[..|v.elems|] == v.elems;
        return Ok(JsonText(JArr(raws)));
      }
      if dialect == SQLite || dialect == Mysql {
        return Ok(JsonText(JsonOf(v)));
      }
      return Ok(v);
    }
    if field.kind == MessageKind {
      if v.Msg? {
        return Ok(JsonText(JMsg(v.msg)));
      }
      if v == NilPtr {
        return Ok(JsonText(JObj(map[])));
      }
      return Err(NotAMessage);
    }
    r := Ok(v);
  }

  // ---------- Decoding: scalars ----------

  /** The conversions done by the Go runtime and libraries, taken as parameters. */
  datatype Runtime = Runtime(
    floatToInt64: real -> int,           // unspecified by Go outside the int64 range
    floatText: real -> string,
    parseFloat: string -> Option<real>,
    roundToFloat32: real -> real,
    base64: seq<int> -> string,
    unBase64: string -> Option<seq<int>>,
    unmarshal: Json -> Option<Nested>,   // protojson.Unmarshal
    jsonArray: string -> Option<seq<Json>>, // json.Unmarshal of text starting with a bracket
    jsonDoc: string -> Option<Json>,     // json.Unmarshal of any text
    jsonText: Json -> string,
    otherText: Json -> string)           // fmt.Sprint of a decoded array or object

  /** What the round trips need of the libraries: truncation is the identity on integers in
      range, base64 and protojson invert themselves. */
  ghost predicate Faithful(rt: Runtime) {
    && (forall r: real :: r == r.Floor as real && -TWO63 <= r.Floor < TWO63 ==> rt.floatToInt64(r) == r.Floor)
    && (forall bs :: rt.unBase64(rt.base64(bs)) == Some(bs))
    && (forall m :: rt.unmarshal(JMsg(m)) == Some(m))
  }

  /** A value of static type `any` on the decoding side. */
  datatype Any = ANil | ABool(b: bool) | ANumber(text: string) | AFloat(r: real) | AText(s: string) | AOther(j: Json)

  /** Decoding JSON into an `any`: numbers keep their text when UseNumber is set, and become
      binary64 values otherwise. */
  function AnyOf(j: Json, useNumber: bool, rt: Runtime): Any {
    match j
    case JNull => ANil
    case JBool(b) => ABool(b)
    case JInt(n) => if useNumber then ANumber(Itoa(n)) else AFloat(Float64.Round(n) as real)
    case JReal(r) => if useNumber then ANumber(rt.floatText(r)) else AFloat(r)
    case JStr(s) => AText(s)
    case JBytes(bs) => AText(rt.base64(bs))
    case _ => AOther(j)
  }

  function TextToInt64(s: string): Option<int> {
    if s == "" then Some(0)
    else
      var i := ParseInt(s, TWO63);
      if i.Some? then i
      else
        var u := ParseUint(s, TWO64);
        if u.Some? then Some(ToSigned64(u.value)) else None
  }

  function ToInt64(v: Any, rt: Runtime): Option<int> {
    match v
    case ANumber(t) => TextToInt64(t)
    case AText(t) => TextToInt64(t)
    case AFloat(r) => Some(rt.floatToInt64(r))
    case _ => None
  }

  function ToFloat64(v: Any, rt: Runtime): Option<real> {
    match v
    case ANumber(t) => if t == "" then Some(0.0) else rt.parseFloat(t)
    case AText(t) => if t == "" then Some(0.0) else rt.parseFloat(t)
    case AFloat(r) => Some(r)
    case _ => None
  }

  /** strconv.ParseBool on lower-case text. */
  function ParseBool(s: string): Option<bool> {
    if s == "1" || s == "t" || s == "true" then Some(true)
    else if s == "0" || s == "f" || s == "false" then Some(false)
    else None
  }

  /** Go's conversion of an int64 to int32. */
  function ToSigned32(n: int): int {
    (n + TWO31) % TWO32 - TWO31
  }

  function Sprint(v: Any, rt: Runtime): string {
    match v
    case ANil => "<nil>"
    case ABool(b) => if b then "true" else "false"
    case ANumber(t) => t
    case AFloat(r) => rt.floatText(r)
    case AText(s) => s
    case AOther(j) => rt.otherText(j)
  }

  /** scalarElemToProtoreflectValue; an enum value is decoded to its number. */
  function DecodeScalar(kind: Kind, v: Any, rt: Runtime): Option<GoVal> {
    match kind
    case BoolKind =>
      (match v
       case ABool(b) => Some(Bool(b))
       case AFloat(r) => Some(Bool(r != 0.0))
       case AText(s) =>
         var b := ParseBool(Lower(s));
         if b.Some? then Some(Bool(b.value)) else None
       case _ => None)
    case Int32Kind => var i := ToInt64(v, rt); if i.Some? then Some(Int(ToSigned32(i.value))) else None
    case EnumKind => var i := ToInt64(v, rt); if i.Some? then Some(Int(ToSigned32(i.value))) else None
    case Int64Kind => var i := ToInt64(v, rt); if i.Some? then Some(Int(i.value)) else None
    case Uint32Kind => var i := ToInt64(v, rt); if i.Some? then Some(Int(i.value % TWO32)) else None
    case Uint64Kind => var i := ToInt64(v, rt); if i.Some? then Some(Int(i.value % TWO64)) else None
    case FloatKind => var f := ToFloat64(v, rt); if f.Some? then Some(Real(rt.roundToFloat32(f.value))) else None
    case DoubleKind => var f := ToFloat64(v, rt); if f.Some? then Some(Real(f.value)) else None
    case StringKind => Some(Str(Sprint(v, rt)))
    case BytesKind =>
      (match v
       case AText(s) => var b := rt.unBase64(s); if b.Some? then Some(Bytes(b.value)) else None
       case _ => None)
    case MessageKind => None
  }

  /** Decimal text of an int64 or uint64 value is read back as its two's-complement int64. */
  lemma TextOfInt64(n: int)
    requires -TWO63 <= n < TWO64
    ensures TextToInt64(Itoa(n)) == Some(ToSigned64(n))
  {
    if n < TWO63 {
      ParseItoa(n, TWO63);
    } else {
      DigitsValue(n);
      assert IsDigit(Itoa(n)[0]);
      ParseUintDigits(n, TWO64);
    }
  }

  /** The values a field of the kind holds, an enum value by its number; floating point is not
      claimed. */
  predicate ValueOfKind(kind: Kind, v: GoVal) {
    match v
    case Bool(_) => kind == BoolKind
    case Int(n) => NumberKind(kind) && InKind(kind, n)
    case Str(_) => kind == StringKind
    case Bytes(_) => kind == BytesKind
    case Msg(_) => kind == MessageKind
    case _ => false
  }

  // ---------- Decoding: maps ----------

  function DecodeMember(kind: Kind, j: Json, rt: Runtime): Option<GoVal> {
    if kind == MessageKind then
      var m := rt.unmarshal(j);
      if m.Some? then Some(Msg(m.value)) else None
    else DecodeScalar(kind, AnyOf(j, true, rt), rt)
  }

  /** parseMapKeyFromString. */
  function ParseKey(kind: Kind, s: string): Option<MapKey> {
    var ss := Trim(s);
    match kind
    case StringKind => Some(KStr(ss))
    case BoolKind => var b := ParseBool(Lower(ss)); if b.Some? then Some(KBool(b.value)) else None
    case Int32Kind => var i := ParseInt(ss, TWO31); if i.Some? then Some(KInt(i.value)) else None
    case Int64Kind => var i := ParseInt(ss, TWO63); if i.Some? then Some(KInt(i.value)) else None
    case Uint32Kind => var u := ParseUint(ss, TWO32); if u.Some? then Some(KInt(u.value)) else None
    case Uint64Kind => var u := ParseUint(ss, TWO64); if u.Some? then Some(KInt(u.value)) else None
    case _ => None
  }

  predicate MemberDecodes(key: Kind, kind: Kind, t: string, j: Json, rt: Runtime) {
    ParseKey(key, t).Some? && DecodeMember(kind, j, rt).Some?
  }

  /** The map holds, under each decoded key, the decoded value of one of the members with that key. */
  ghost predicate DecodesTo(key: Kind, kind: Kind, obj: map<string, Json>, r: map<MapKey, GoVal>, rt: Runtime) {
    && (forall t :: t in obj ==> MemberDecodes(key, kind, t, obj[t], rt) && ParseKey(key, t).value in r)
    && (forall k :: k in r ==> exists t :: MemberGives(key, kind, obj, t, k, r[k], rt))
  }

  ghost predicate MemberGives(key: Kind, kind: Kind, obj: map<string, Json>, t: string, k: MapKey, v: GoVal,
                              rt: Runtime)
  {
    t in obj && ParseKey(key, t) == Some(k) && DecodeMember(kind, obj[t], rt) == Some(v)
  }

  /** Every member walked so far has decoded and its key is there; no entry comes from elsewhere. */
  ghost predicate Filled(key: Kind, kind: Kind, obj: map<string, Json>, walked: set<string>, r: map<MapKey, GoVal>,
                         rt: Runtime)
  {
    && (forall t :: t in walked ==>
          t in obj && MemberDecodes(key, kind, t, obj[t], rt) && ParseKey(key, t).value in r)
    && (forall k :: k in r ==> exists t :: MemberGives(key, kind, obj, t, k, r[k], rt))
  }

  lemma FilledWhole(key: Kind, kind: Kind, obj: map<string, Json>, r: map<MapKey, GoVal>, rt: Runtime)
    requires Filled(key, kind, obj, obj.Keys, r, rt)
    ensures DecodesTo(key, kind, obj, r, rt)
    ensures forall t :: t in obj ==> MemberDecodes(key, kind, t, obj[t], rt)
  {
  }

  /** One more member, which gives v under the key mk. */
  lemma FilledMore(key: Kind, kind: Kind, obj: map<string, Json>, walked: set<string>, t: string, mk: MapKey, v: GoVal,
                   r: map<MapKey, GoVal>, rt: Runtime)
    requires Filled(key, kind, obj, walked, r, rt) && MemberGives(key, kind, obj, t, mk, v, rt)
    ensures Filled(key, kind, obj, walked + {t}, r[mk := v], rt)
  {
    var after := r[mk := v];
    forall k | k in after
      ensures exists other :: MemberGives(key, kind, obj, other, k, after[k], rt)
    {
      if k != mk {
        var other :| MemberGives(key, kind, obj, other, k, r[k], rt);
      }
    }
  }

  /** What a column scanned into a map or list field can be. */
  datatype Scanned = SNull | SText(s: string) | SJson(j: Json) | SSlice(elems: seq<Any>) | SOther

  class MapField {
    var entries: map<MapKey, GoVal>

    method ClearAll()
      modifies this
      ensures entries == map[]
    {
      var keys := entries.Keys;
      while keys != {}
        invariant entries.Keys == keys
        decreases keys
      {
        var k :| k in keys;
        entries := entries - {k};
        keys := keys - {k};
      }
    }

    /** setProtoMsgMapField: the old entries are dropped first, whatever happens next. */
    method Set(key: Kind, kind: Kind, v: Scanned, rt: Runtime) returns (ok: bool)
      modifies this
      ensures v == SNull || v == SJson(JNull) ==> ok && entries == map[]
      ensures v.SJson? && v.j.JObj? ==>
                (ok <==> forall t :: t in v.j.members ==> MemberDecodes(key, kind, t, v.j.members[t], rt))
      ensures v.SJson? && v.j.JObj? && ok ==> DecodesTo(key, kind, v.j.members, entries, rt)
      ensures v.SText? ==> (ok <==> Trim(v.s) == "") && entries == map[]
      ensures v.SSlice? || v == SOther ==> !ok && entries == map[]
    {
      ClearAll();
      match v
      case SNull => ok := true;
      case SText(s) => ok := Trim(s) == "";
      case SSlice(_) => ok := false;
      case SOther => ok := false;
      case SJson(j) =>
        if j.JNull? {
          return true;
        }
        if !j.JObj? {
          return false;
        }
        ok := Fill(key, kind, j.members, rt);
    }

    /** One member: its key is parsed, then its value, and the entry is set. */
    method Put(key: Kind, kind: Kind, t: string, raw: Json, rt: Runtime) returns (ok: bool)
      modifies this
      ensures ok <==> MemberDecodes(key, kind, t, raw, rt)
      ensures entries == if ok then old(entries)[ParseKey(key, t).value := DecodeMember(kind, raw, rt).value]
                         else old(entries)
    {
      var mk := ParseKey(key, t);
      if mk.None? {
        return false;
      }
      var pv := DecodeMember(kind, raw, rt);
      if pv.None? {
        return false;
      }
      entries := entries[mk.value := pv.value];
      ok := true;
    }

    method Fill(key: Kind, kind: Kind, raws: map<string, Json>, rt: Runtime) returns (ok: bool)
      requires entries == map[]
      modifies this
      ensures ok <==> forall t :: t in raws ==> MemberDecodes(key, kind, t, raws[t], rt)
      ensures ok ==> DecodesTo(key, kind, raws, entries, rt)
    {
      var rest := raws.Keys;
      ghost var walked := {};
      while rest != {}
        invariant walked + rest == raws.Keys && Filled(key, kind, raws, walked, entries, rt)
        decreases rest
      {
        var t :| t in rest;
        ghost var before := entries;
        ok := Put(key, kind, t, raws[t], rt);
        if !ok {
          return;
        }
        FilledMore(key, kind, raws, walked, t, ParseKey(key, t).value, DecodeMember(kind, raws[t], rt).value, before,
                   rt);
        rest, walked := rest - {t}, walked + {t};
      }
      FilledWhole(key, kind, raws, entries, rt);
      ok := true;
    }
  }

  // ---------- Map round trip ----------

  predicate KeyTrimmed(k: MapKey) {
    k.KStr? ==> Trimmed(k.s)
  }

  lemma BoolKeyRoundTrip(b: bool)
    ensures ParseKey(BoolKind, KeyText(KBool(b))) == Some(KBool(b))
  {
    var s := KeyText(KBool(b));
    assert Trim(s) == s;
    LowerFixes(s);
  }

  lemma IntKeyRoundTrip(kind: Kind, n: int)
    requires IntegerKind(kind) && InKind(kind, n)
    ensures ParseKey(kind, Itoa(n)) == Some(KInt(n))
  {
    PgArray.ItoaStable(n);
    assert Trim(Itoa(n)) == Itoa(n);
    if kind == Int32Kind {
      ParseItoa(n, TWO31);
    } else if kind == Int64Kind {
      ParseItoa(n, TWO63);
    } else if kind == Uint32Kind {
      ParseUintDigits(n, TWO32);
    } else {
      ParseUintDigits(n, TWO64);
    }
  }

  lemma KeyRoundTrip(kind: Kind, k: MapKey)
    requires KeyOfKind(kind, k)
    ensures ParseKey(kind, KeyText(k)).Some?
    ensures ParseKey(kind, KeyText(k)) == Some(k) <==> KeyTrimmed(k)
  {
    if k.KBool? {
      BoolKeyRoundTrip(k.b);
    } else if k.KInt? {
      IntKeyRoundTrip(kind, k.n);
    }
  }

  /** The integer a kind's cast makes of an int64. */
  function CastTo(kind: Kind, i: int): int {
    match kind
    case Uint32Kind => i % TWO32
    case Uint64Kind => i % TWO64
    case Int64Kind => i
    case _ => ToSigned32(i)
  }

  lemma CastBack(kind: Kind, n: int)
    requires NumberKind(kind) && InKind(kind, n)
    ensures CastTo(kind, ToSigned64(n)) == n
  {
  }

  lemma DecodeInteger(kind: Kind, v: Any, i: int, rt: Runtime)
    requires NumberKind(kind) && ToInt64(v, rt) == Some(i)
    ensures DecodeScalar(kind, v, rt) == Some(Int(CastTo(kind, i)))
  {
  }

  lemma IntegerFromText(kind: Kind, n: int, v: Any, rt: Runtime)
    requires NumberKind(kind) && InKind(kind, n)
    requires v == ANumber(Itoa(n)) || v == AText(Itoa(n)) || v == AText(Itoa(ToSigned64(n)))
    ensures DecodeScalar(kind, v, rt) == Some(Int(n))
  {
    TextOfInt64(n);
    TextOfInt64(ToSigned64(n));
    assert ToSigned64(ToSigned64(n)) == ToSigned64(n);
    DecodeInteger(kind, v, ToSigned64(n), rt);
    CastBack(kind, n);
  }

  lemma {:induction false} MemberRoundTrip(kind: Kind, v: GoVal, rt: Runtime)
    requires ValueOfKind(kind, v) && Faithful(rt)
    ensures DecodeMember(kind, JsonOf(v), rt) == Some(v)
  {
    if v.Int? {
      IntegerFromText(kind, v.n, ANumber(Itoa(v.n)), rt);
    }
  }

  /** Every member of an encoded map decodes, to its own value, under its own key if that is trimmed. */
  lemma MemberOfMap(key: Kind, kind: Kind, m: map<MapKey, GoVal>, t: string, rt: Runtime) returns (k: MapKey)
    requires KeysOfKind(key, m) && Faithful(rt)
    requires forall k :: k in m ==> ValueOfKind(kind, m[k])
    requires t in MapObject(key, m)
    ensures k in m && KeyText(k) == t && ParseKey(key, t).Some?
    ensures DecodeMember(kind, MapObject(key, m)[t], rt) == Some(m[k])
    ensures KeyTrimmed(k) ==> ParseKey(key, t) == Some(k)
  {
    k :| Present(m, k) && KeyText(k) == t;
    KeyRoundTrip(key, k);
    MemberRoundTrip(kind, m[k], rt);
  }

  lemma ParsedKeyTrimmed(key: Kind, t: string)
    ensures ParseKey(key, t).Some? ==> KeyTrimmed(ParseKey(key, t).value)
  {
  }

  lemma MapAlwaysDecodes(key: Kind, kind: Kind, m: map<MapKey, GoVal>, rt: Runtime)
    requires KeysOfKind(key, m) && Faithful(rt)
    requires forall k :: k in m ==> ValueOfKind(kind, m[k])
    ensures forall t :: t in MapObject(key, m) ==> MemberDecodes(key, kind, t, MapObject(key, m)[t], rt)
  {
    forall t | t in MapObject(key, m)
      ensures MemberDecodes(key, kind, t, MapObject(key, m)[t], rt)
    {
      var k := MemberOfMap(key, kind, m, t, rt);
    }
  }

  /** A key with outer whitespace is not in the decoded map. */
  lemma UntrimmedKeyIsLost(key: Kind, kind: Kind, obj: map<string, Json>, r: map<MapKey, GoVal>, k: MapKey, rt: Runtime)
    requires DecodesTo(key, kind, obj, r, rt) && !KeyTrimmed(k)
    ensures k !in r
  {
    if k in r {
      var t :| MemberGives(key, kind, obj, t, k, r[k], rt);
      ParsedKeyTrimmed(key, t);
    }
  }

  lemma KeyComesBack(key: Kind, kind: Kind, m: map<MapKey, GoVal>, r: map<MapKey, GoVal>, k: MapKey, rt: Runtime)
    requires KeysOfKind(key, m) && k in m && m[k] != NilPtr && KeyTrimmed(k)
    requires DecodesTo(key, kind, MapObject(key, m), r, rt)
    ensures k in r
  {
    assert Present(m, k);
    KeyRoundTrip(key, k);
    assert MemberDecodes(key, kind, KeyText(k), MapObject(key, m)[KeyText(k)], rt);
  }

  lemma EntryComesBack(key: Kind, kind: Kind, m: map<MapKey, GoVal>, r: map<MapKey, GoVal>, k: MapKey, rt: Runtime)
    requires KeysOfKind(key, m) && Faithful(rt)
    requires forall k :: k in m ==> ValueOfKind(kind, m[k])
    requires forall k :: k in m ==> KeyTrimmed(k)
    requires DecodesTo(key, kind, MapObject(key, m), r, rt) && k in r
    ensures k in m && r[k] == m[k]
  {
    var t :| MemberGives(key, kind, MapObject(key, m), t, k, r[k], rt);
    var a := MemberOfMap(key, kind, m, t, rt);
  }

  ghost predicate SameAt(m: map<MapKey, GoVal>, r: map<MapKey, GoVal>, k: MapKey) {
    (k in m <==> k in r) && (k in m && k in r ==> r[k] == m[k])
  }

  lemma TrimmedEntry(key: Kind, kind: Kind, m: map<MapKey, GoVal>, r: map<MapKey, GoVal>, k: MapKey, rt: Runtime)
    requires KeysOfKind(key, m) && Faithful(rt)
    requires forall k :: k in m ==> ValueOfKind(kind, m[k])
    requires forall k :: k in m ==> KeyTrimmed(k)
    requires DecodesTo(key, kind, MapObject(key, m), r, rt)
    ensures SameAt(m, r, k)
  {
    if k in m {
      KeyComesBack(key, kind, m, r, k, rt);
    }
    if k in r {
      EntryComesBack(key, kind, m, r, k, rt);
    }
  }

  lemma SameMaps(m: map<MapKey, GoVal>, r: map<MapKey, GoVal>)
    requires forall k :: SameAt(m, r, k)
    ensures r == m
  {
    forall k
      ensures k in m <==> k in r
      ensures k in m && k in r ==> r[k] == m[k]
    {
      assert SameAt(m, r, k);
    }
    assert r.Keys == m.Keys;
  }

  /** Decoding an encoded map gives back the same map exactly when no string key has outer whitespace. */
  lemma MapRoundTrip(key: Kind, kind: Kind, m: map<MapKey, GoVal>, r: map<MapKey, GoVal>, rt: Runtime)
    requires KeysOfKind(key, m) && Faithful(rt)
    requires forall k :: k in m ==> ValueOfKind(kind, m[k])
    requires DecodesTo(key, kind, MapObject(key, m), r, rt)
    ensures r == m <==> forall k :: k in m ==> KeyTrimmed(k)
  {
    if k :| k in m && !KeyTrimmed(k) {
      UntrimmedKeyIsLost(key, kind, MapObject(key, m), r, k, rt);
    } else {
      forall k
        ensures SameAt(m, r, k)
      {
        TrimmedEntry(key, kind, m, r, k, rt);
      }
      SameMaps(m, r);
    }
  }

  /** The whole trip: whatever the target held, it ends up holding the encoded map. */
  method StoreAndLoadMap(field: FieldDesc, dialect: Dialect, m: map<MapKey, GoVal>, target: MapField, rt: Runtime)
    requires field.IsMap() && KeysOfKind(field.card.key, m) && Faithful(rt)
    requires forall k :: k in m ==> ValueOfKind(field.kind, m[k]) && KeyTrimmed(k)
    modifies target
    ensures target.entries == m
  {
    MapAlwaysDecodes(field.card.key, field.kind, m, rt);
    var enc := EncodeSQLArg(field, dialect, MapVal(m));
    assert MessagesOnly(m.Values) || field.kind != MessageKind;
    var ok := target.Set(field.card.key, field.kind, SJson(enc.value.j), rt);
    MapRoundTrip(field.card.key, field.kind, m, target.entries, rt);
  }
}
