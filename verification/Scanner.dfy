/** Row scanners (crud/dbscan.go:24-222, 255-323, 985-1079): scan destinations that are reused for
    every row, and the messages filled from them. */
module Scanner {
  import opened Prelude
  import opened Text
  import opened Message
  import Codec

  // ---------- Driver values and destinations ----------

  datatype Driver = DNil | DInt(n: int) | DReal(r: real) | DBool(b: bool) | DBytes(bs: seq<int>) | DText(s: string)

  /** The conversions done by database/sql and the Go runtime, taken as parameters, and the
      decoding of list, map and message columns from their text. */
  datatype Conv = Conv(
    toInt64: Driver -> Option<int>, toBool: Driver -> Option<bool>, toReal: Driver -> Option<real>,
      toText: Driver -> string,
    realToUint64: real -> int, bytesText: seq<int> -> string, textBytes: string -> seq<int>,
      roundToFloat32: real -> real,
    nested: (FieldDesc, Option<string>) -> Option<GoVal>)

  datatype Form = IntForm | UintForm | BoolForm | RealForm | TextForm | BytesForm | AnyForm

  /** allocScanDest. */
  function FormOf(f: FieldDesc): Form {
    if f.card != Singular then TextForm
    else match f.kind
      case StringKind => TextForm
      case MessageKind => TextForm
      case BoolKind => BoolForm
      case Uint64Kind => UintForm
      case FloatKind => RealForm
      case DoubleKind => RealForm
      case BytesKind => BytesForm
      case _ => IntForm
  }

  /** toUint64 on the values a driver delivers. */
  function ToUint64(src: Driver, conv: Conv): Option<int> {
    match src
    case DInt(n) => if n < 0 then None else Some(n)
    case DBytes(bs) => TextToUint64(conv.bytesText(bs), bs == [])
    case DText(s) => TextToUint64(s, s == "")
    case DReal(r) => if r < 0.0 then None else Some(conv.realToUint64(r))
    case _ => None
  }

  function TextToUint64(s: string, empty: bool): Option<int> {
    if empty then Some(0)
    else
      var u := ParseUint(s, TWO64);
      if u.Some? then Some(u.value) else None
  }

  /** The Go type of what a destination holds. */
  predicate OfForm(form: Form, v: GoVal) {
    match form
    case IntForm => v.Int?
    case UintForm => v.Int?
    case BoolForm => v.Bool?
    case RealForm => v.Real?
    case TextForm => v.Str?
    case BytesForm => v.Bytes?
    case AnyForm => true
  }

  /** What a destination takes from a driver value: None is an error, and Some(None) a NULL. */
  function Taken(form: Form, src: Driver, conv: Conv): (r: Option<Option<GoVal>>)
    ensures r.Some? && r.value.Some? ==> OfForm(form, r.value.value)
  {
    if src == DNil then Some(None)
    else match form
      case IntForm => (match conv.toInt64(src) case Some(n) => Some(Some(Int(n))) case None => None)
      case UintForm => (match ToUint64(src, conv) case Some(n) => Some(Some(Int(n))) case None => None)
      case BoolForm => (match conv.toBool(src) case Some(b) => Some(Some(Bool(b))) case None => None)
      case RealForm => (match conv.toReal(src) case Some(r) => Some(Some(Real(r))) case None => None)
      case TextForm => Some(Some(Str(conv.toText(src))))
      case BytesForm => (match BytesIn(src, conv) case Some(bs) => Some(Some(Bytes(bs))) case None => None)
      case AnyForm => Some(Some(Nil))
  }

  function BytesIn(src: Driver, conv: Conv): Option<seq<int>> {
    match src
    case DBytes(bs) => Some(bs)
    case DText(s) => Some(conv.textBytes(s))
    case _ => None
  }

  /** One scan destination. A bytes destination keeps its buffer from row to row. */
  class Dest {
    const form: Form
    var valid: bool
    var val: GoVal
    var buf: array<int>
    var len: nat

    constructor (form: Form)
      ensures this.form == form && Valid() && fresh(buf)
    {
      this.form, valid, val, len := form, false, Nil, 0;
      buf := new int[0];
    }

    ghost predicate Valid()
      reads this
    {
      len <= buf.Length
    }

    /** unwrapScanVal: what is stored now, or None for NULL. */
    function Value(): Option<GoVal>
      requires Valid()
      reads this, buf
    {
      if !valid then None else if form == BytesForm then Some(Bytes(buf[..len])) else Some(val)
    }

    /** Scans one driver value, whatever the destination held before. */
    method Scan(src: Driver, conv: Conv) returns (ok: bool)
      requires Valid()
      modifies this, buf
      ensures Valid() && (buf == old(buf) || fresh(buf))
      ensures ok == Taken(form, src, conv).Some?
      ensures ok ==> Taken(form, src, conv) == Some(Value())
    {
      ok := true;
      if src == DNil {
        valid := false;
        return;
      }
      if form == BytesForm {
        var bs := BytesIn(src, conv);
        if bs.None? {
          return false;
        }
        StoreBytes(bs.value);
      } else {
        var taken := Taken(form, src, conv);
        if taken.None? {
          return false;
        }
        val := taken.value.value;
      }
      valid := true;
    }

    /** append(buf[:0], bs...): in place when the buffer is large enough. */
    method StoreBytes(bs: seq<int>)
      modifies this`buf, this`len, buf
      ensures buf == old(buf) || fresh(buf)
      ensures len == |bs| && len <= buf.Length && buf[..len] == bs
    {
      if |bs| > buf.Length {
        buf := new int[|bs|];
      }
      forall i | 0 <= i < |bs| {
        buf[i] := bs[i];
      }
      len := |bs|;
    }
  }

  // ---------- Messages ----------

  datatype FieldVal = Plain(v: GoVal) | Blob(bytes: array<int>)

  class ProtoMsg {
    var fields: map<string, FieldVal>
    ghost var owned: set<array<int>> // the arrays of its bytes

    ghost predicate Valid()
      reads this
    {
      forall k :: k in fields && fields[k].Blob? ==> fields[k].bytes in owned
    }

    constructor ()
      ensures Valid() && Contents() == map[] && owned == {}
    {
      fields, owned := map[], {};
    }

    /** The values of the fields, bytes read through their arrays. */
    ghost function Contents(): map<string, GoVal>
      requires Valid()
      reads this, owned
    {
      map k | k in fields :: match fields[k] case Plain(v) => v case Blob(bytes) => Bytes(bytes[..])
    }

    method SetPlain(name: string, v: GoVal)
      requires Valid()
      modifies this
      ensures Valid() && Contents() == old(Contents())[name := v] && owned == old(owned)
    {
      fields := fields[name := Plain(v)];
    }

    method Clear(name: string)
      requires Valid()
      modifies this
      ensures Valid() && Contents() == old(Contents()) - {name} && owned == old(owned)
    {
      fields := fields - {name};
    }

    /** Stores a copy, append([]byte(nil), b...). */
    method SetBytes(name: string, bs: seq<int>)
      requires Valid()
      modifies this
      ensures Valid() && Contents() == old(Contents())[name := Bytes(bs)]
      ensures fresh(owned - old(owned))
    {
      var copy := new int[|bs|](i requires 0 <= i < |bs| => bs[i]);
      assert copy[..] == bs;
      fields := fields[name := Blob(copy)];
      owned := owned + {copy};
    }
  }

  // ---------- One row, by its values alone ----------

  /** An error of a setter; only a plain one lets the scanner try the other setter. */
  datatype SetError = PlainError | NoFallback

  datatype SetResult = Unset | Stored(v: GoVal) | Failure(err: SetError)

  /** A list, map or message field, from its text. */
  function SetNested(f: FieldDesc, v: Option<GoVal>, conv: Conv): SetResult {
    var r := conv.nested(f, if v.Some? && v.value.Str? then Some(v.value.s) else None);
    if r.Some? then Stored(r.value) else Failure(PlainError)
  }

  predicate Nests(f: FieldDesc) {
    f.card != Singular || f.kind == MessageKind
  }

  /** The value has the Go type of the field's destination. */
  predicate FitsField(f: FieldDesc, v: Option<GoVal>) {
    v.Some? ==> OfForm(FormOf(f), v.value)
  }

  /** setProtoMsgFieldDirect on an unwrapped value. */
  function DirectSet(f: FieldDesc, v: Option<GoVal>, conv: Conv): SetResult
    requires FitsField(f, v)
  {
    if Nests(f) then SetNested(f, v, conv)
    else if v.None? then Unset
    else
      var x := v.value;
      match f.kind
      case Int32Kind =>
        var i := x.n;
        if i < -TWO31 || i > TWO31 - 1 then Failure(NoFallback) else Stored(Int(Codec.ToSigned32(i)))
      case Uint32Kind =>
        var i := x.n;
        if i < 0 || i > TWO32 - 1 then Failure(NoFallback) else Stored(Int(i % TWO32))
      case EnumKind =>
        var i := x.n;
        if i < -TWO31 || i > TWO31 - 1 then Failure(NoFallback) else Stored(Int(Codec.ToSigned32(i)))
      case FloatKind => Stored(Real(conv.roundToFloat32(x.r)))
      case _ => Stored(x)
  }

  /** SetProtoMsgField, which assigns through reflection and casts integers without a check. */
  function FallbackSet(f: FieldDesc, v: Option<GoVal>, conv: Conv): SetResult
    requires FitsField(f, v)
  {
    if Nests(f) then SetNested(f, v, conv)
    else if v.None? then Unset
    else
      var x := v.value;
      match f.kind
      case Int32Kind => Stored(Int(Codec.ToSigned32(x.n)))
      case Uint32Kind => Stored(Int(x.n % TWO32))
      case EnumKind => Stored(Int(Codec.ToSigned32(x.n)))
      case FloatKind => Failure(PlainError)
      case _ => Stored(x)
  }

  /** The fallback is tried after a plain error only. */
  function Dispatch(direct: SetResult, fallback: SetResult): SetResult {
    if direct == Failure(PlainError) then fallback else direct
  }

  /** What a scanner sets from an unwrapped value. */
  function SetFrom(f: FieldDesc, v: Option<GoVal>, conv: Conv): SetResult
    requires FitsField(f, v)
  {
    Dispatch(DirectSet(f, v, conv), FallbackSet(f, v, conv))
  }

  datatype Effect = Fails | Leaves | Puts(name: string, v: GoVal)

  function FieldFrom(f: FieldDesc, v: Option<GoVal>, conv: Conv): Effect
    requires FitsField(f, v)
  {
    match SetFrom(f, v, conv)
    case Unset => Leaves
    case Stored(x) => Puts(f.name, x)
    case Failure(_) => Fails
  }

  function FormFor(col: Option<FieldDesc>): Form {
    if col.Some? then FormOf(col.value) else AnyForm
  }

  /** What a column sets, given what its destination took. */
  function EffectGiven(col: Option<FieldDesc>, taken: Option<Option<GoVal>>, conv: Conv): Effect
    requires col.Some? && taken.Some? ==> FitsField(col.value, taken.value)
  {
    if taken.None? then Fails else if col.None? then Leaves else FieldFrom(col.value, taken.value, conv)
  }

  function EffectOf(col: Option<FieldDesc>, src: Driver, conv: Conv): Effect {
    EffectGiven(col, Taken(FormFor(col), src, conv), conv)
  }

  /** The fields the first n columns of a row set; None if one of them fails. */
  function Decoded(cols: seq<Option<FieldDesc>>, row: seq<Driver>, n: nat, conv: Conv): Option<map<string, GoVal>>
    requires n <= |cols| && n <= |row|
  {
    if n == 0 then Some(map[])
    else
      var front := Decoded(cols, row, n - 1, conv);
      match EffectOf(cols[n - 1], row[n - 1], conv)
      case Fails => None
      case Leaves => front
      case Puts(name, v) => if front.None? then None else Some(front.value[name := v])
  }

  lemma {:induction false} OneFails(cols: seq<Option<FieldDesc>>, row: seq<Driver>, i: nat, n: nat, conv: Conv)
    requires i < n <= |cols| && n <= |row| && EffectOf(cols[i], row[i], conv) == Fails
    ensures Decoded(cols, row, n, conv).None?
    decreases n
  {
    if i < n - 1 {
      OneFails(cols, row, i, n - 1, conv);
    }
  }

  // ---------- What a column gives ----------

  /** A singular field that is no message. */
  predicate Scalar(f: FieldDesc) {
    f.card == Singular && f.kind != MessageKind
  }

  /** The text of an unsigned number: a decimal numeral of 64 bits without a sign, or nothing for zero. */
  predicate UnsignedText(s: string, n: int) {
    if s == "" then n == 0 else 0 <= n < TWO64 && Natural(s, n)
  }

  /** What a scalar field of each kind takes from a driver value that is not NULL. */
  predicate Takes(kind: Kind, src: Driver, v: GoVal, conv: Conv) {
    match kind
    case BoolKind => v.Bool? && conv.toBool(src) == Some(v.b)
    case Int32Kind => v.Int? && -TWO31 <= v.n < TWO31 && conv.toInt64(src) == Some(v.n)
    case EnumKind => v.Int? && -TWO31 <= v.n < TWO31 && conv.toInt64(src) == Some(v.n)
    case Int64Kind => v.Int? && conv.toInt64(src) == Some(v.n)
    case Uint32Kind => v.Int? && 0 <= v.n < TWO32 && conv.toInt64(src) == Some(v.n)
    case Uint64Kind =>
      v.Int? &&
      (match src
       case DInt(n) => n >= 0 && v.n == n
       case DReal(x) => x >= 0.0 && v.n == conv.realToUint64(x)
       case DText(s) => UnsignedText(s, v.n)
       case DBytes(bs) => if bs == [] then v.n == 0
         else conv.bytesText(bs) != "" && UnsignedText(conv.bytesText(bs), v.n)
       case _ => false)
    case FloatKind => v.Real? && conv.toReal(src).Some? && v.r == conv.roundToFloat32(conv.toReal(src).value)
    case DoubleKind => v.Real? && conv.toReal(src) == Some(v.r)
    case StringKind => v == Str(conv.toText(src))
    case BytesKind => v.Bytes? && (src == DBytes(v.bs) || (src.DText? && v.bs == conv.textBytes(src.s)))
    case MessageKind => false
  }

  lemma UnsignedTextRead(s: string, empty: bool, n: int)
    requires empty ==> s == ""
    ensures TextToUint64(s, empty) == Some(n) <==> if empty then n == 0 else s != "" && UnsignedText(s, n)
  {
    if !empty && n >= 0 {
      ParseUintMeans(s, TWO64, n);
    }
  }

  lemma {:induction false} Uint64Taken(src: Driver, n: int, conv: Conv)
    ensures ToUint64(src, conv) == Some(n) <==> Takes(Uint64Kind, src, Int(n), conv)
  {
    match src {
      case DBytes(bs) =>
        if bs == [] {
          assert TextToUint64(conv.bytesText(bs), true) == Some(0);
        } else {
          UnsignedTextRead(conv.bytesText(bs), false, n);
        }
      case DText(s) => UnsignedTextRead(s, s == "", n);
      case _ =>
    }
  }

  lemma {:induction false} Uint64Gives(f: FieldDesc, src: Driver, conv: Conv)
    requires f.card == Singular && f.kind == Uint64Kind && src != DNil
    ensures match EffectOf(Some(f), src, conv)
            case Puts(name, v) => name == f.name && Takes(f.kind, src, v, conv)
            case Leaves => false
            case Fails => forall v :: !Takes(f.kind, src, v, conv)
  {
    var u := ToUint64(src, conv);
    if u.Some? {
      Uint64Taken(src, u.value, conv);
    } else {
      forall v
        ensures !Takes(f.kind, src, v, conv)
      {
        if v.Int? {
          Uint64Taken(src, v.n, conv);
        }
      }
    }
  }

  lemma {:induction false} NarrowGives(f: FieldDesc, src: Driver, conv: Conv)
    requires f.card == Singular && f.kind in {Int32Kind, Uint32Kind, EnumKind} && src != DNil
    ensures match EffectOf(Some(f), src, conv)
            case Puts(name, v) => name == f.name && Takes(f.kind, src, v, conv)
            case Leaves => false
            case Fails => forall v :: !Takes(f.kind, src, v, conv)
  {
  }

  lemma {:induction false} OtherGives(f: FieldDesc, src: Driver, conv: Conv)
    requires Scalar(f) && f.kind !in {Int32Kind, Uint32Kind, EnumKind, Uint64Kind} && src != DNil
    ensures match EffectOf(Some(f), src, conv)
            case Puts(name, v) => name == f.name && Takes(f.kind, src, v, conv)
            case Leaves => false
            case Fails => forall v :: !Takes(f.kind, src, v, conv)
  {
  }

  /** A scalar column sets its field to what the driver gave; it fails exactly when the field can take
      nothing from that, and leaves the field only for NULL. */
  lemma {:induction false} ScalarGives(f: FieldDesc, src: Driver, conv: Conv)
    requires Scalar(f)
    ensures match EffectOf(Some(f), src, conv)
            case Puts(name, v) => name == f.name && src != DNil && Takes(f.kind, src, v, conv)
            case Leaves => src == DNil
            case Fails => src != DNil && forall v :: !Takes(f.kind, src, v, conv)
  {
    if src != DNil {
      if f.kind == Uint64Kind {
        Uint64Gives(f, src, conv);
      } else if f.kind in {Int32Kind, Uint32Kind, EnumKind} {
        NarrowGives(f, src, conv);
      } else {
        OtherGives(f, src, conv);
      }
    }
  }

  /** With the conversions of database/sql an int64 arrives as it is, over its whole range, and so does
      a uint64, as an integer or as its decimal text. */
  lemma {:induction false} WideIntegersExact(f: FieldDesc, n: int, conv: Conv)
    requires f.card == Singular && Direct(conv)
    ensures f.kind == Int64Kind ==> EffectOf(Some(f), DInt(n), conv) == Puts(f.name, Int(n))
    ensures f.kind == Uint64Kind && n >= 0 ==> EffectOf(Some(f), DInt(n), conv) == Puts(f.name, Int(n))
    ensures f.kind == Uint64Kind && 0 <= n < TWO64 ==>
              EffectOf(Some(f), DText(Itoa(n)), conv) == Puts(f.name, Int(n))
  {
    if f.kind == Uint64Kind && 0 <= n < TWO64 {
      ParseUintDigits(n, TWO64);
    }
  }

  /** How database/sql converts a value that has the Go type of the destination. */
  ghost predicate Direct(conv: Conv) {
    && (forall n :: conv.toInt64(DInt(n)) == Some(n))
    && (forall b :: conv.toBool(DBool(b)) == Some(b))
    && (forall x :: conv.toReal(DReal(x)) == Some(x))
    && (forall s :: conv.toText(DText(s)) == s)
  }

  // ---------- Narrow integers ----------

  predicate Narrow(f: FieldDesc) {
    f.card == Singular && f.kind in {Int32Kind, Uint32Kind, EnumKind}
  }

  /** A 32-bit or enum column gives the scanned integer exactly; it fails exactly when the driver
      value is no integer or out of range, and leaves the field only for NULL. */
  lemma NarrowIntegersExact(f: FieldDesc, src: Driver, conv: Conv)
    requires Narrow(f)
    ensures match EffectOf(Some(f), src, conv)
            case Puts(name, v) => name == f.name && v.Int? && InKind(f.kind, v.n) && conv.toInt64(src) == Some(v.n)
            case Leaves => src == DNil
            case Fails => src != DNil && (conv.toInt64(src).Some? ==> !InKind(f.kind, conv.toInt64(src).value))
  {
  }

  /** The mark on the range error is what keeps the truncating setter out: were the error plain, an
      integer out of range would be stored as another one. */
  lemma UnmarkedTruncates(f: FieldDesc, n: int, conv: Conv)
    requires Narrow(f) && !InKind(f.kind, n)
    ensures DirectSet(f, Some(Int(n)), conv) == Failure(NoFallback)
    ensures var r := Dispatch(Failure(PlainError), FallbackSet(f, Some(Int(n)), conv));
            r.Stored? && r.v.Int? && InKind(f.kind, r.v.n) && r.v.n != n
  {
  }

  /** No other column is of the same field. */
  ghost predicate OnlyAt(cols: seq<Option<FieldDesc>>, i: nat)
    requires i < |cols| && cols[i].Some?
  {
    forall j :: 0 <= j < |cols| && j != i && cols[j].Some? ==> cols[j].value.name != cols[i].value.name
  }

  ghost predicate Named(cols: seq<Option<FieldDesc>>, name: string) {
    exists j :: 0 <= j < |cols| && cols[j].Some? && cols[j].value.name == name
  }

  /** The field of a column has what the column sets. */
  lemma {:induction false} DecodedAt(cols: seq<Option<FieldDesc>>, row: seq<Driver>, n: nat, i: nat, conv: Conv)
    requires i < n <= |cols| && n <= |row| && cols[i].Some? && OnlyAt(cols, i)
             && Decoded(cols, row, n, conv).Some?
    ensures var m, e := Decoded(cols, row, n, conv).value, EffectOf(cols[i], row[i], conv);
            if e.Puts? then e.name in m && m[e.name] == e.v else e.Leaves? && cols[i].value.name !in m
    decreases n
  {
    var last := EffectOf(cols[n - 1], row[n - 1], conv);
    assert last.Puts? ==> cols[n - 1].Some? && last.name == cols[n - 1].value.name;
    if i < n - 1 {
      DecodedAt(cols, row, n - 1, i, conv);
    } else {
      NotAmong(cols, row, n - 1, cols[i].value.name, conv);
    }
  }

  /** A name that is no column's is not set. */
  lemma {:induction false} NotAmong(cols: seq<Option<FieldDesc>>, row: seq<Driver>, n: nat, name: string, conv: Conv)
    requires n <= |cols| && n <= |row| && Decoded(cols, row, n, conv).Some?
    requires forall j :: 0 <= j < n && cols[j].Some? ==> cols[j].value.name != name
    ensures name !in Decoded(cols, row, n, conv).value
    decreases n
  {
    if n > 0 {
      var last := EffectOf(cols[n - 1], row[n - 1], conv);
      assert last.Puts? ==> cols[n - 1].Some? && last.name == cols[n - 1].value.name;
      NotAmong(cols, row, n - 1, name, conv);
    }
  }

  // ---------- What a row gives ----------

  predicate Untouched(name: string, before: map<string, GoVal>, after: map<string, GoVal>) {
    if name in before then name in after && after[name] == before[name] else name !in after
  }

  /** The text of a column that is a list, a map or a message. */
  function NestedText(src: Driver, conv: Conv): Option<string> {
    if src == DNil then None else Some(conv.toText(src))
  }

  /** The message has in this field what the column gives: NULL leaves a scalar field alone. */
  predicate Says(f: FieldDesc, src: Driver, before: map<string, GoVal>, after: map<string, GoVal>, conv: Conv) {
    if !Scalar(f) then f.name in after && conv.nested(f, NestedText(src, conv)) == Some(after[f.name])
    else if src == DNil then Untouched(f.name, before, after)
    else f.name in after && Takes(f.kind, src, after[f.name], conv)
  }

  /** The message has what the row gives, column by column, and is as before in every other field. */
  ghost predicate RowSays(cols: seq<Option<FieldDesc>>, row: seq<Driver>, before: map<string, GoVal>,
                          after: map<string, GoVal>, conv: Conv)
  {
    && |row| == |cols|
    && (forall i :: 0 <= i < |cols| && cols[i].Some? && OnlyAt(cols, i) ==>
          Says(cols[i].value, row[i], before, after, conv))
    && (forall name :: !Named(cols, name) ==> Untouched(name, before, after))
  }

  /** The field can take what the driver gave. */
  ghost predicate Takeable(f: FieldDesc, src: Driver, conv: Conv) {
    if !Scalar(f) then conv.nested(f, NestedText(src, conv)).Some?
    else src == DNil || exists v :: Takes(f.kind, src, v, conv)
  }

  ghost predicate RowTakeable(cols: seq<Option<FieldDesc>>, row: seq<Driver>, conv: Conv) {
    |row| == |cols| && forall i :: 0 <= i < |cols| && cols[i].Some? ==> Takeable(cols[i].value, row[i], conv)
  }

  lemma {:induction false} NestedGives(f: FieldDesc, src: Driver, conv: Conv)
    requires !Scalar(f)
    ensures var v := conv.nested(f, NestedText(src, conv));
            EffectOf(Some(f), src, conv) == if v.Some? then Puts(f.name, v.value) else Fails
  {
  }

  lemma TakeableIff(f: FieldDesc, src: Driver, conv: Conv)
    ensures EffectOf(Some(f), src, conv) != Fails <==> Takeable(f, src, conv)
  {
    if Scalar(f) {
      ScalarGives(f, src, conv);
    } else {
      NestedGives(f, src, conv);
    }
  }

  lemma {:induction false} DecodedIff(cols: seq<Option<FieldDesc>>, row: seq<Driver>, n: nat, conv: Conv)
    requires n <= |cols| && n <= |row|
    ensures Decoded(cols, row, n, conv).Some?
       <==> forall i :: 0 <= i < n && cols[i].Some? ==> Takeable(cols[i].value, row[i], conv)
    decreases n
  {
    if n > 0 {
      DecodedIff(cols, row, n - 1, conv);
      if cols[n - 1].Some? {
        TakeableIff(cols[n - 1].value, row[n - 1], conv);
      }
    }
  }

  lemma {:induction false} ColumnSays(cols: seq<Option<FieldDesc>>, row: seq<Driver>, i: nat, base: map<string, GoVal>,
                                      conv: Conv)
    requires |cols| == |row| && i < |cols| && cols[i].Some? && OnlyAt(cols, i)
    requires Decoded(cols, row, |row|, conv).Some?
    ensures Says(cols[i].value, row[i], base, base + Decoded(cols, row, |row|, conv).value, conv)
  {
    DecodedAt(cols, row, |row|, i, conv);
    if Scalar(cols[i].value) {
      ScalarGives(cols[i].value, row[i], conv);
    } else {
      NestedGives(cols[i].value, row[i], conv);
    }
  }

  /** What the decoded row makes of a message. */
  lemma {:induction false} DecodedSays(cols: seq<Option<FieldDesc>>, row: seq<Driver>, base: map<string, GoVal>,
                                       conv: Conv)
    requires |cols| == |row|
    ensures Decoded(cols, row, |row|, conv).Some? <==> RowTakeable(cols, row, conv)
    ensures Decoded(cols, row, |row|, conv).Some? ==>
              RowSays(cols, row, base, base + Decoded(cols, row, |row|, conv).value, conv)
  {
    DecodedIff(cols, row, |row|, conv);
    if Decoded(cols, row, |row|, conv).Some? {
      forall i | 0 <= i < |cols| && cols[i].Some? && OnlyAt(cols, i)
        ensures Says(cols[i].value, row[i], base, base + Decoded(cols, row, |row|, conv).value, conv)
      {
        ColumnSays(cols, row, i, base, conv);
      }
      forall name | !Named(cols, name)
        ensures Untouched(name, base, base + Decoded(cols, row, |row|, conv).value)
      {
        NotAmong(cols, row, |row|, name, conv);
      }
    }
  }

  lemma {:induction false} NewMessageSays(cols: seq<Option<FieldDesc>>, row: seq<Driver>, m: map<string, GoVal>,
                                          conv: Conv)
    requires |cols| == |row| && Decoded(cols, row, |row|, conv) == Some(m)
    ensures RowSays(cols, row, map[], m, conv)
  {
    DecodedSays(cols, row, map[], conv);
    assert map[] + m == m;
  }

  /** In a row that is scanned without an error, every 32-bit or enum field is the integer the
      driver gave, or was NULL. */
  lemma {:induction false} RowIntegersExact(cols: seq<Option<FieldDesc>>, row: seq<Driver>, i: nat, conv: Conv)
    requires |cols| == |row| && i < |cols| && cols[i].Some? && Narrow(cols[i].value) && OnlyAt(cols, i)
    requires Decoded(cols, row, |row|, conv).Some?
    ensures var m, name := Decoded(cols, row, |row|, conv).value, cols[i].value.name;
            if row[i] == DNil then name !in m
            else name in m && conv.toInt64(row[i]).Some? && m[name] == Int(conv.toInt64(row[i]).value)
  {
    var m := Decoded(cols, row, |row|, conv).value;
    ColumnSays(cols, row, i, map[], conv);
    assert map[] + m == m;
  }

  // ---------- Destinations of a row ----------

  /** Distinct destinations with buffers of their own. */
  ghost predicate Apart(ds: seq<Dest>)
    reads ds
  {
    && (forall i :: 0 <= i < |ds| ==> ds[i].Valid())
    && (forall i, j :: 0 <= i < j < |ds| ==> ds[i] != ds[j] && ds[i].buf != ds[j].buf)
  }

  ghost predicate BufsIn(ds: seq<Dest>, owned: set<array<int>>)
    reads ds
  {
    forall i :: 0 <= i < |ds| ==> ds[i].buf in owned
  }

  ghost predicate Fits(ds: seq<Dest>, cols: seq<Option<FieldDesc>>) {
    |ds| == |cols| && forall i :: 0 <= i < |ds| ==> ds[i].form == FormFor(cols[i])
  }

  /** Every destination can take its value. */
  ghost predicate AllTaken(cols: seq<Option<FieldDesc>>, row: seq<Driver>, conv: Conv) {
    |cols| == |row| && forall i :: 0 <= i < |row| ==> Taken(FormFor(cols[i]), row[i], conv).Some?
  }

  lemma {:induction false} NotTaken(cols: seq<Option<FieldDesc>>, row: seq<Driver>, conv: Conv)
    requires |cols| == |row| && !AllTaken(cols, row, conv)
    ensures Decoded(cols, row, |row|, conv).None?
  {
    var i :| 0 <= i < |row| && Taken(FormFor(cols[i]), row[i], conv).None?;
    OneFails(cols, row, i, |row|, conv);
  }

  /** Every destination holds what it takes from the row. */
  ghost predicate Holding(ds: seq<Dest>, cols: seq<Option<FieldDesc>>, row: seq<Driver>, conv: Conv)
    reads ds, set i | 0 <= i < |ds| :: ds[i].buf
  {
    && |ds| == |cols| == |row|
    && (forall i :: 0 <= i < |ds| ==> ds[i].Valid())
    && (forall i :: 0 <= i < |ds| ==> Taken(FormFor(cols[i]), row[i], conv) == Some(ds[i].Value()))
  }

  /** The first k destinations hold what they take from the row. */
  ghost predicate TakenUpTo(ds: seq<Dest>, row: seq<Driver>, k: nat, conv: Conv)
    reads ds, set i | 0 <= i < |ds| :: ds[i].buf
  {
    k <= |ds| == |row| &&
    forall i :: 0 <= i < k ==> ds[i].Valid() && Taken(ds[i].form, row[i], conv) == Some(ds[i].Value())
  }

  method ScanDestAt(ds: seq<Dest>, row: seq<Driver>, k: nat, conv: Conv, ghost owned: set<array<int>>)
    returns (ok: bool, ghost owned': set<array<int>>)
    requires Apart(ds) && BufsIn(ds, owned) && k < |ds| && TakenUpTo(ds, row, k, conv)
    modifies ds[k], ds[k].buf
    ensures Apart(ds) && BufsIn(ds, owned') && owned <= owned' && fresh(owned' - owned)
    ensures ok <==> Taken(ds[k].form, row[k], conv).Some?
    ensures ok ==> TakenUpTo(ds, row, k + 1, conv)
  {
    ok := ds[k].Scan(row[k], conv);
    owned' := owned + {ds[k].buf};
  }

  /** rows.Scan: stops at the first value that a destination cannot take. */
  method ScanDests(ds: seq<Dest>, row: seq<Driver>, conv: Conv, ghost cols: seq<Option<FieldDesc>>,
                   ghost owned: set<array<int>>)
    returns (ok: bool, ghost owned': set<array<int>>)
    requires Apart(ds) && Fits(ds, cols) && BufsIn(ds, owned) && |row| == |ds|
    modifies ds, owned
    ensures Apart(ds) && BufsIn(ds, owned') && owned <= owned' && fresh(owned' - owned)
    ensures ok <==> AllTaken(cols, row, conv)
    ensures ok ==> Holding(ds, cols, row, conv)
  {
    owned' := owned;
    for k := 0 to |ds|
      invariant Apart(ds) && BufsIn(ds, owned') && owned <= owned' && fresh(owned' - owned)
      invariant TakenUpTo(ds, row, k, conv)
    {
      ok, owned' := ScanDestAt(ds, row, k, conv, owned');
      if !ok {
        return;
      }
    }
    ok := true;
  }

  /** Stores a value, copying bytes. */
  method Put(msg: ProtoMsg, name: string, v: GoVal)
    requires msg.Valid()
    modifies msg
    ensures msg.Valid() && msg.Contents() == old(msg.Contents())[name := v]
    ensures fresh(msg.owned - old(msg.owned))
  {
    if v.Bytes? {
      msg.SetBytes(name, v.bs);
    } else {
      msg.SetPlain(name, v);
    }
  }

  /** What a setter did to a message: nothing but to store the value. A list or map that fails may be
      left empty or partly filled. */
  ghost predicate Did(r: SetResult, f: FieldDesc, before: map<string, GoVal>, after: map<string, GoVal>) {
    match r
    case Unset => after == before
    case Stored(v) => after == before[f.name := v]
    case Failure(_) => if Nests(f) then after - {f.name} == before - {f.name} else after == before
  }

  /** A failing setter, then another one. */
  lemma DidBoth(direct: SetResult, fallback: SetResult, f: FieldDesc, before: map<string, GoVal>,
                mid: map<string, GoVal>, after: map<string, GoVal>)
    requires direct.Failure? && Did(direct, f, before, mid) && Did(fallback, f, mid, after)
    requires Nests(f) ==> !fallback.Unset?
    ensures Did(fallback, f, before, after)
  {
    if fallback.Stored? && Nests(f) {
      forall n | n != f.name
        ensures n in mid <==> n in before
        ensures n in mid ==> mid[n] == before[n]
      {
        assert n in mid - {f.name} <==> n in before - {f.name};
        if n in mid {
          assert (mid - {f.name})[n] == (before - {f.name})[n];
        }
      }
    }
  }

  /** A list or map is emptied before anything is read. */
  method Empty(msg: ProtoMsg, f: FieldDesc)
    requires msg.Valid()
    modifies msg
    ensures msg.Valid() && msg.owned == old(msg.owned)
    ensures msg.Contents() == if f.card != Singular then old(msg.Contents()) - {f.name} else old(msg.Contents())
  {
    if f.card != Singular {
      msg.Clear(f.name);
    }
  }

  /** setProtoMsgFieldDirect. */
  method SetProtoMsgFieldDirect(msg: ProtoMsg, f: FieldDesc, v: Option<GoVal>, conv: Conv)
    returns (err: Option<SetError>)
    requires msg.Valid() && FitsField(f, v)
    modifies msg
    ensures msg.Valid() && fresh(msg.owned - old(msg.owned))
    ensures Did(DirectSet(f, v, conv), f, old(msg.Contents()), msg.Contents())
    ensures err == if DirectSet(f, v, conv).Failure? then Some(DirectSet(f, v, conv).err) else None
  {
    Empty(msg, f);
    var r := DirectSet(f, v, conv);
    match r {
      case Unset => err := None;
      case Stored(x) =>
        Put(msg, f.name, x);
        err := None;
      case Failure(e) => err := Some(e);
    }
  }

  /** SetProtoMsgField. It would keep the very bytes it is given, but bytes never get here. */
  method SetProtoMsgField(msg: ProtoMsg, f: FieldDesc, v: Option<GoVal>, conv: Conv) returns (err: Option<SetError>)
    requires msg.Valid() && FitsField(f, v) && (f.kind == BytesKind ==> Nests(f))
    modifies msg
    ensures msg.Valid() && fresh(msg.owned - old(msg.owned))
    ensures Did(FallbackSet(f, v, conv), f, old(msg.Contents()), msg.Contents())
    ensures err == if FallbackSet(f, v, conv).Failure? then Some(FallbackSet(f, v, conv).err) else None
  {
    Empty(msg, f);
    var r := FallbackSet(f, v, conv);
    match r {
      case Unset => err := None;
      case Stored(x) =>
        Put(msg, f.name, x);
        err := None;
      case Failure(e) => err := Some(e);
    }
  }

  /** Sets one field from its destination: directly, and after a plain error by the fallback. */
  method SetColumn(msg: ProtoMsg, f: FieldDesc, d: Dest, conv: Conv) returns (ok: bool)
    requires d.Valid() && msg.Valid() && FitsField(f, d.Value())
    modifies msg
    ensures msg.Valid() && fresh(msg.owned - old(msg.owned))
    ensures ok == !SetFrom(f, d.Value(), conv).Failure?
    ensures Did(SetFrom(f, d.Value(), conv), f, old(msg.Contents()), msg.Contents())
  {
    var v := d.Value();
    var err := SetProtoMsgFieldDirect(msg, f, v, conv);
    if err == None {
      return true;
    }
    if err == Some(NoFallback) {
      return false;
    }
    ghost var mid := msg.Contents();
    err := SetProtoMsgField(msg, f, v, conv);
    ok := err == None;
    DidBoth(DirectSet(f, v, conv), FallbackSet(f, v, conv), f, old(msg.Contents()), mid, msg.Contents());
  }

  /** allocScanDest for every column. */
  method AllocAll(cols: seq<Option<FieldDesc>>) returns (ds: seq<Dest>, ghost owned: set<array<int>>)
    ensures Apart(ds) && Fits(ds, cols) && BufsIn(ds, owned)
    ensures fresh(ds) && fresh(owned)
  {
    ds, owned := [], {};
    for i := 0 to |cols|
      invariant |ds| == i && Apart(ds) && BufsIn(ds, owned) && forall k :: 0 <= k < i ==> ds[k].form == FormFor(cols[k])
      invariant fresh(ds) && fresh(owned)
    {
      var d := new Dest(FormFor(cols[i]));
      ds, owned := ds + [d], owned + {d.buf};
    }
  }

  /** What one more column adds to what the columns before it set. */
  lemma DecodedNext(cols: seq<Option<FieldDesc>>, row: seq<Driver>, i: nat, v: Option<GoVal>, conv: Conv,
                    base: map<string, GoVal>)
    requires i < |cols| == |row| && Decoded(cols, row, i, conv).Some?
    requires cols[i].Some? && Taken(FormFor(cols[i]), row[i], conv) == Some(v)
    ensures var before, after := base + Decoded(cols, row, i, conv).value, Decoded(cols, row, i + 1, conv);
            var r := SetFrom(cols[i].value, v, conv);
            && (after.Some? <==> !r.Failure?)
            && (after.Some? ==> Did(r, cols[i].value, before, base + after.value))
  {
  }

  /** Sets the field of column i, after those before it. */
  method SetNext(msg: ProtoMsg, cols: seq<Option<FieldDesc>>, i: nat, d: Dest, conv: Conv, ghost row: seq<Driver>,
                 ghost base: map<string, GoVal>)
    returns (ok: bool)
    requires msg.Valid() && i < |cols| == |row| && d.Valid() && Taken(FormFor(cols[i]), row[i], conv) == Some(d.Value())
    requires Decoded(cols, row, i, conv).Some? && msg.Contents() == base + Decoded(cols, row, i, conv).value
    modifies msg
    ensures msg.Valid() && ok == Decoded(cols, row, i + 1, conv).Some?
    ensures ok ==> msg.Contents() == base + Decoded(cols, row, i + 1, conv).value
    ensures fresh(msg.owned - old(msg.owned))
  {
    ok := true;
    if cols[i].Some? {
      DecodedNext(cols, row, i, d.Value(), conv, base);
      ok := SetColumn(msg, cols[i].value, d, conv);
    }
  }

  /** Sets the fields of a scanned row, column by column. */
  method SetColumns(msg: ProtoMsg, cols: seq<Option<FieldDesc>>, ds: seq<Dest>, conv: Conv, ghost row: seq<Driver>)
    returns (ok: bool)
    requires msg.Valid() && Holding(ds, cols, row, conv)
    modifies msg
    ensures msg.Valid() && (ok <==> Decoded(cols, row, |cols|, conv).Some?)
    ensures ok ==> msg.Contents() == old(msg.Contents()) + Decoded(cols, row, |cols|, conv).value
    ensures fresh(msg.owned - old(msg.owned))
  {
    ghost var base := msg.Contents();
    for i := 0 to |cols|
      invariant msg.Valid() && fresh(msg.owned - old(msg.owned))
      invariant Decoded(cols, row, i, conv).Some?
      invariant msg.Contents() == base + Decoded(cols, row, i, conv).value
    {
      ok := SetNext(msg, cols, i, ds[i], conv, row, base);
      if !ok {
        NoneStays(cols, row, i + 1, |cols|, conv);
        return;
      }
    }
    ok := true;
  }

  lemma {:induction false} NoneStays(cols: seq<Option<FieldDesc>>, row: seq<Driver>, i: nat, n: nat, conv: Conv)
    requires i <= n <= |cols| && n <= |row| && Decoded(cols, row, i, conv).None?
    ensures Decoded(cols, row, n, conv).None?
    decreases n
  {
    if i < n {
      NoneStays(cols, row, i, n - 1, conv);
    }
  }

  method ScanRow(ds: seq<Dest>, cols: seq<Option<FieldDesc>>, row: seq<Driver>, msg: ProtoMsg, conv: Conv,
                 ghost owned: set<array<int>>)
    returns (ok: bool, ghost owned': set<array<int>>)
    requires Apart(ds) && Fits(ds, cols) && BufsIn(ds, owned) && |row| == |cols| && msg.Valid() && msg.owned !! owned
    modifies ds, owned, msg
    ensures Apart(ds) && BufsIn(ds, owned') && owned <= owned' && fresh(owned' - owned)
    ensures msg.Valid() && (ok <==> Decoded(cols, row, |row|, conv).Some?)
    ensures ok ==> msg.Contents() == old(msg.Contents()) + Decoded(cols, row, |row|, conv).value
    ensures msg.owned !! owned' && fresh(msg.owned - old(msg.owned))
  {
    ghost var base := msg.Contents();
    ok, owned' := ScanDests(ds, row, conv, cols, owned);
    assert msg.Contents() == base && msg.owned !! owned';
    if ok {
      ok := SetColumns(msg, cols, ds, conv, row);
    } else {
      NotTaken(cols, row, conv);
    }
  }

  class DbRowScanner {
    const fieldDescs: seq<Option<FieldDesc>>
    const rowVals: seq<Dest>
    ghost var owned: set<array<int>> // the buffers its destinations have had

    ghost predicate Valid()
      reads this, rowVals
    {
      Apart(rowVals) && Fits(rowVals, fieldDescs) && BufsIn(rowVals, owned)
    }

    constructor (fieldDescs: seq<Option<FieldDesc>>)
      ensures Valid() && this.fieldDescs == fieldDescs
      ensures fresh(rowVals) && fresh(owned)
    {
      var ds, bufs := AllocAll(fieldDescs);
      this.fieldDescs, this.rowVals, this.owned := fieldDescs, ds, bufs;
    }

    /** Scans one row. What the message gets depends on the row alone, whatever rows were scanned
        before, and none of its bytes live in a buffer of the scanner. */
    method Scan(row: seq<Driver>, msg: ProtoMsg, conv: Conv) returns (ok: bool)
      requires Valid() && msg.Valid() && |row| == |fieldDescs| && msg.owned !! owned
      modifies this, rowVals, owned, msg
      ensures Valid() && msg.Valid() && owned >= old(owned) && fresh(owned - old(owned))
      ensures ok <==> Decoded(fieldDescs, row, |row|, conv).Some?
      ensures ok ==> msg.Contents() == old(msg.Contents()) + Decoded(fieldDescs, row, |row|, conv).value
      ensures ok <==> RowTakeable(fieldDescs, row, conv)
      ensures ok ==> RowSays(fieldDescs, row, old(msg.Contents()), msg.Contents(), conv)
      ensures msg.owned !! owned && fresh(msg.owned - old(msg.owned))
    {
      ok, owned := ScanRow(rowVals, fieldDescs, row, msg, conv, owned);
      DecodedSays(fieldDescs, row, old(msg.Contents()), conv);
    }
  }

  /** A message whose bytes live outside the scanner. */
  ghost predicate Outside(m: ProtoMsg, scanner: DbRowScanner)
    reads m, scanner
  {
    m.Valid() && m.owned !! scanner.owned
  }

  /** Scans one more row into a new message; earlier messages keep what they hold. */
  method ScanNext(scanner: DbRowScanner, row: seq<Driver>, conv: Conv, ghost earlier: set<ProtoMsg>)
    returns (ok: bool, msg: ProtoMsg)
    requires scanner.Valid() && |row| == |scanner.fieldDescs| && forall m :: m in earlier ==> Outside(m, scanner)
    modifies scanner, scanner.rowVals, scanner.owned
    ensures scanner.Valid() && fresh(scanner.owned - old(scanner.owned))
    ensures fresh(msg) && Outside(msg, scanner)
    ensures ok <==> Decoded(scanner.fieldDescs, row, |row|, conv).Some?
    ensures ok ==> Decoded(scanner.fieldDescs, row, |row|, conv) == Some(msg.Contents())
    ensures forall m :: m in earlier ==> Outside(m, scanner) && m.Contents() == old(m.Contents())
  {
    msg := new ProtoMsg();
    ok := scanner.Scan(row, msg, conv);
    if ok {
      assert map[] + Decoded(scanner.fieldDescs, row, |row|, conv).value
             == Decoded(scanner.fieldDescs, row, |row|, conv).value;
    }
  }

  /** Scans all rows with one scanner, each into a message of its own: at the end every message
      holds what its own row says. */
  method ScanAll(fieldDescs: seq<Option<FieldDesc>>, rows: seq<seq<Driver>>, conv: Conv)
    returns (ok: bool, msgs: seq<ProtoMsg>)
    requires forall i :: 0 <= i < |rows| ==> |rows[i]| == |fieldDescs|
    ensures ok <==> forall i :: 0 <= i < |rows| ==> Decoded(fieldDescs, rows[i], |fieldDescs|, conv).Some?
    ensures ok ==> |msgs| == |rows| && forall i :: 0 <= i < |rows| ==>
                     msgs[i].Valid() && Decoded(fieldDescs, rows[i], |fieldDescs|, conv) == Some(msgs[i].Contents())
                     && RowSays(fieldDescs, rows[i], map[], msgs[i].Contents(), conv)
  {
    var scanner := new DbRowScanner(fieldDescs);
    msgs := [];
    for k := 0 to |rows|
      invariant scanner.Valid() && fresh(scanner.rowVals) && fresh(scanner.owned) && scanner.fieldDescs == fieldDescs
      invariant |msgs| == k && forall i :: 0 <= i < k ==> Outside(msgs[i], scanner)
      invariant forall i :: 0 <= i < k ==> Decoded(fieldDescs, rows[i], |fieldDescs|, conv) == Some(msgs[i].Contents())
    {
      var msg;
      ok, msg := ScanNext(scanner, rows[k], conv, Elems(msgs));
      if !ok {
        return;
      }
      assert forall i :: 0 <= i < k ==> msgs[i] in Elems(msgs);
      msgs := msgs + [msg];
    }
    ok := true;
    forall i | 0 <= i < |rows|
      ensures RowSays(fieldDescs, rows[i], map[], msgs[i].Contents(), conv)
    {
      NewMessageSays(fieldDescs, rows[i], msgs[i].Contents(), conv);
    }
  }

  // ---------- Old and new rows side by side ----------

  class DbRowPairScanner {
    const fieldDescs: seq<Option<FieldDesc>> // of the first half of the columns
    const rowVals: seq<Dest>
    ghost var owned: set<array<int>>

    ghost predicate Valid()
      reads this, rowVals
    {
      Apart(rowVals) && Fits(rowVals, fieldDescs + fieldDescs) && BufsIn(rowVals, owned)
    }

    constructor (fieldDescs: seq<Option<FieldDesc>>)
      ensures Valid() && this.fieldDescs == fieldDescs
      ensures fresh(rowVals) && fresh(owned)
    {
      var ds, bufs := AllocAll(fieldDescs + fieldDescs);
      this.fieldDescs, this.rowVals, this.owned := fieldDescs, ds, bufs;
    }

    /** The first half of the row goes to the old message and the second half to the new one, each
        decoded as the first half's fields say. */
    method Scan(row: seq<Driver>, oldMsg: ProtoMsg, newMsg: ProtoMsg, conv: Conv) returns (ok: bool)
      requires Valid() && oldMsg.Valid() && newMsg.Valid() && oldMsg != newMsg && |row| == 2 * |fieldDescs|
      requires oldMsg.owned !! owned && newMsg.owned !! owned
      modifies this, rowVals, owned, oldMsg, newMsg
      ensures Valid() && oldMsg.Valid() && newMsg.Valid() && fresh(owned - old(owned))
      ensures ok <==> PairDecodes(fieldDescs, row, conv)
      ensures ok ==> GotHalf(oldMsg, old(oldMsg.Contents()), fieldDescs, row[..|fieldDescs|], conv)
                     && GotHalf(newMsg, old(newMsg.Contents()), fieldDescs, row[|fieldDescs|..], conv)
      ensures ok ==> RowSays(fieldDescs, row[..|fieldDescs|], old(oldMsg.Contents()), oldMsg.Contents(), conv)
                     && RowSays(fieldDescs, row[|fieldDescs|..], old(newMsg.Contents()), newMsg.Contents(), conv)
    {
      ok, owned := ScanPair(rowVals, fieldDescs, row, oldMsg, newMsg, conv, owned);
      DecodedSays(fieldDescs, row[..|fieldDescs|], old(oldMsg.Contents()), conv);
      DecodedSays(fieldDescs, row[|fieldDescs|..], old(newMsg.Contents()), conv);
    }
  }

  ghost predicate PairDecodes(cols: seq<Option<FieldDesc>>, row: seq<Driver>, conv: Conv)
    requires |row| == 2 * |cols|
  {
    Decoded(cols, row[..|cols|], |cols|, conv).Some? && Decoded(cols, row[|cols|..], |cols|, conv).Some?
  }

  /** The message has got what this half of the row says. */
  ghost predicate GotHalf(msg: ProtoMsg, base: map<string, GoVal>, cols: seq<Option<FieldDesc>>, half: seq<Driver>,
                          conv: Conv)
    requires |half| == |cols|
    reads msg, msg.owned
  {
    msg.Valid() && Decoded(cols, half, |cols|, conv).Some?
      && msg.Contents() == base + Decoded(cols, half, |cols|, conv).value
  }

  lemma HalvesHold(ds: seq<Dest>, cols: seq<Option<FieldDesc>>, row: seq<Driver>, conv: Conv)
    requires Holding(ds, cols + cols, row, conv)
    ensures Holding(ds[..|cols|], cols, row[..|cols|], conv) && Holding(ds[|cols|..], cols, row[|cols|..], conv)
  {
    forall i | 0 <= i < |cols|
      ensures Taken(FormFor(cols[i]), row[|cols|..][i], conv) == Some(ds[|cols|..][i].Value())
    {
      assert (cols + cols)[|cols| + i] == cols[i];
    }
    forall i | 0 <= i < |cols|
      ensures Taken(FormFor(cols[i]), row[..|cols|][i], conv) == Some(ds[..|cols|][i].Value())
    {
      assert (cols + cols)[i] == cols[i];
    }
  }

  lemma HalfNotTaken(cols: seq<Option<FieldDesc>>, row: seq<Driver>, conv: Conv)
    requires |row| == 2 * |cols| && !AllTaken(cols + cols, row, conv)
    ensures !PairDecodes(cols, row, conv)
  {
    var h := |cols|;
    var i :| 0 <= i < |row| && Taken(FormFor((cols + cols)[i]), row[i], conv).None?;
    if i < h {
      OneFails(cols, row[..h], i, h, conv);
    } else {
      assert (cols + cols)[i] == cols[i - h] && row[h..][i - h] == row[i];
      OneFails(cols, row[h..], i - h, h, conv);
    }
  }

  /** What the first i columns of a half gave a message. */
  ghost predicate GotSoFar(msg: ProtoMsg, base: map<string, GoVal>, cols: seq<Option<FieldDesc>>, half: seq<Driver>,
                           i: nat, conv: Conv)
    requires i <= |cols| == |half|
    reads msg, msg.owned
  {
    msg.Valid() && Decoded(cols, half, i, conv).Some? && msg.Contents() == base + Decoded(cols, half, i, conv).value
  }

  /** Sets the fields of column i in both messages. */
  method SetPair(oldMsg: ProtoMsg, newMsg: ProtoMsg, cols: seq<Option<FieldDesc>>, i: nat, oldVal: Dest, newVal: Dest,
                 conv: Conv, ghost oldRow: seq<Driver>, ghost newRow: seq<Driver>, ghost oldBase: map<string, GoVal>,
                 ghost newBase: map<string, GoVal>)
    returns (ok: bool)
    requires oldMsg != newMsg && i < |cols| == |oldRow| == |newRow|
    requires oldVal.Valid() && Taken(FormFor(cols[i]), oldRow[i], conv) == Some(oldVal.Value())
    requires newVal.Valid() && Taken(FormFor(cols[i]), newRow[i], conv) == Some(newVal.Value())
    requires GotSoFar(oldMsg, oldBase, cols, oldRow, i, conv) && GotSoFar(newMsg, newBase, cols, newRow, i, conv)
    modifies oldMsg, newMsg
    ensures oldMsg.Valid() && newMsg.Valid()
    ensures ok ==>
            GotSoFar(oldMsg, oldBase, cols, oldRow, i + 1, conv) && GotSoFar(newMsg, newBase, cols, newRow, i + 1, conv)
    ensures !ok ==> Decoded(cols, oldRow, |cols|, conv).None? || Decoded(cols, newRow, |cols|, conv).None?
  {
    ok := SetNext(oldMsg, cols, i, oldVal, conv, oldRow, oldBase);
    if !ok {
      NoneStays(cols, oldRow, i + 1, |cols|, conv);
      return;
    }
    ok := SetNext(newMsg, cols, i, newVal, conv, newRow, newBase);
    if !ok {
      NoneStays(cols, newRow, i + 1, |cols|, conv);
    }
  }

  /** Sets both messages, column by column. */
  method SetPairs(oldMsg: ProtoMsg, newMsg: ProtoMsg, cols: seq<Option<FieldDesc>>, oldVals: seq<Dest>,
                  newVals: seq<Dest>, conv: Conv, ghost oldRow: seq<Driver>, ghost newRow: seq<Driver>)
    returns (ok: bool)
    requires oldMsg != newMsg && oldMsg.Valid() && newMsg.Valid()
    requires Holding(oldVals, cols, oldRow, conv) && Holding(newVals, cols, newRow, conv)
    modifies oldMsg, newMsg
    ensures oldMsg.Valid() && newMsg.Valid()
    ensures ok <==> Decoded(cols, oldRow, |cols|, conv).Some? && Decoded(cols, newRow, |cols|, conv).Some?
    ensures ok ==>
            GotHalf(oldMsg, old(oldMsg.Contents()), cols, oldRow, conv)
            && GotHalf(newMsg, old(newMsg.Contents()), cols, newRow, conv)
  {
    ghost var oldBase, newBase := oldMsg.Contents(), newMsg.Contents();
    for i := 0 to |cols|
      invariant GotSoFar(oldMsg, oldBase, cols, oldRow, i, conv) && GotSoFar(newMsg, newBase, cols, newRow, i, conv)
    {
      ok := SetPair(oldMsg, newMsg, cols, i, oldVals[i], newVals[i], conv, oldRow, newRow, oldBase, newBase);
      if !ok {
        return;
      }
    }
    ok := true;
  }

  method SetHalves(oldMsg: ProtoMsg, newMsg: ProtoMsg, cols: seq<Option<FieldDesc>>, rowVals: seq<Dest>, conv: Conv,
                   ghost row: seq<Driver>, ghost oldBase: map<string, GoVal>, ghost newBase: map<string, GoVal>)
    returns (ok: bool)
    requires oldMsg != newMsg && oldMsg.Valid() && newMsg.Valid() && Holding(rowVals, cols + cols, row, conv)
    requires oldMsg.Contents() == oldBase && newMsg.Contents() == newBase
    modifies oldMsg, newMsg
    ensures oldMsg.Valid() && newMsg.Valid()
    ensures ok <==> PairDecodes(cols, row, conv)
    ensures ok ==>
            GotHalf(oldMsg, oldBase, cols, row[..|cols|], conv) && GotHalf(newMsg, newBase, cols, row[|cols|..], conv)
  {
    var h := |cols|;
    HalvesHold(rowVals, cols, row, conv);
    ok := SetPairs(oldMsg, newMsg, cols, rowVals[..h], rowVals[h..], conv, row[..h], row[h..]);
  }

  method ScanPair(ds: seq<Dest>, cols: seq<Option<FieldDesc>>, row: seq<Driver>, oldMsg: ProtoMsg, newMsg: ProtoMsg,
                  conv: Conv, ghost owned: set<array<int>>) returns (ok: bool, ghost owned': set<array<int>>)
    requires Apart(ds) && Fits(ds, cols + cols) && BufsIn(ds, owned) && |row| == 2 * |cols|
    requires oldMsg.Valid() && newMsg.Valid() && oldMsg != newMsg && oldMsg.owned !! owned && newMsg.owned !! owned
    modifies ds, owned, oldMsg, newMsg
    ensures Apart(ds) && BufsIn(ds, owned') && fresh(owned' - owned)
    ensures oldMsg.Valid() && newMsg.Valid() && (ok <==> PairDecodes(cols, row, conv))
    ensures ok ==> GotHalf(oldMsg, old(oldMsg.Contents()), cols, row[..|cols|], conv)
                   && GotHalf(newMsg, old(newMsg.Contents()), cols, row[|cols|..], conv)
  {
    ghost var oldBase, newBase := oldMsg.Contents(), newMsg.Contents();
    ok, owned' := ScanDests(ds, row, conv, cols + cols, owned);
    assert oldMsg.Contents() == oldBase && newMsg.Contents() == newBase;
    if ok {
      ok := SetHalves(oldMsg, newMsg, cols, ds, conv, row, oldBase, newBase);
    } else {
      HalfNotTaken(cols, row, conv);
    }
  }

  /** NewDbRowPairScanner, given the field found for each column: an odd number of columns is refused. */
  method NewDbRowPairScanner(columns: seq<Option<FieldDesc>>) returns (scanner: Option<DbRowPairScanner>)
    ensures scanner.Some? <==> |columns| % 2 == 0
    ensures scanner.Some? ==>
            fresh(scanner.value) && scanner.value.Valid() && scanner.value.fieldDescs == columns[..|columns| / 2]
  {
    if |columns| % 2 != 0 {
      return None;
    }
    var s := new DbRowPairScanner(columns[..|columns| / 2]);
    scanner := Some(s);
  }
}
