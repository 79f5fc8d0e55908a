/** Message fields, their database options, and the Go values they hold. */
module Message {
  import opened Text

  /** Field kinds; the sint, sfixed and fixed kinds behave as the kind of their width. */
  datatype Kind =
    | BoolKind | Int32Kind | Int64Kind | Uint32Kind | Uint64Kind
    | FloatKind | DoubleKind | StringKind | BytesKind | EnumKind | MessageKind

  datatype Card = Singular | ListOf | MapOf(key: Kind)

  /** The PDBField options the CRUD code reads. */
  datatype Pdb = Pdb(notDB: bool, primary: bool, noUpdate: bool, notNull: bool, zeroAsNull: bool, reference: string,
                     defaultValue: string, noInsert: bool, serial: bool) {
    predicate NeedInUpdate() {
      !notDB && !noUpdate && !primary
    }

    predicate NeedInInsert() {
      !notDB && !noInsert && !serial
    }
  }

  /** `kind` is the element kind of a list and the value kind of a map. */
  datatype FieldDesc = FieldDesc(name: string, number: int, kind: Kind, card: Card, pdb: Pdb) {
    predicate IsMap() {
      card.MapOf?
    }

    predicate IsList() {
      card.ListOf?
    }
  }

  datatype MapKey = KBool(b: bool) | KInt(n: int) | KStr(s: string)

  /** A nested message, known by an identity and by what printing it gives. */
  datatype Nested = Nested(id: int, text: string)

  /** Abstract JSON. Integers stand for their decimal text, bytes for their base64 text, and
      a nested message for its protojson text. */
  datatype Json =
    | JNull | JBool(b: bool) | JInt(n: int) | JReal(r: real) | JStr(s: string) | JBytes(bs: seq<int>)
    | JMsg(msg: Nested) | JArr(elems: seq<Json>) | JObj(members: map<string, Json>)

  /** A Go value handed to the database driver. */
  datatype GoVal =
    | Nil                         // an untyped nil
    | NullString                  // sql.NullString with Valid == false
    | NilPtr                      // a typed nil pointer
    | Ptr(target: GoVal)          // a pointer to a scalar that has presence
    | Bool(b: bool)
    | Int(n: int)
    | Real(r: real)
    | Str(s: string)
    | Bytes(bs: seq<int>)
    | Enum(n: int, named: bool)   // named: the number has a declared name
    | Msg(msg: Nested)
    | Slice(elems: seq<GoVal>)
    | MapVal(m: map<MapKey, GoVal>)
    | JsonText(j: Json)           // a string that holds JSON text

  /** pdbutil.IsZeroValue. Values it does not know are printed: an unnamed enum number prints
      its digits, an empty message prints nothing, and pointers, slices, maps and bytes never
      print an empty text or a single zero. */
  predicate IsZeroValue(v: GoVal) {
    match v
    case Str(s) => s == "" || s == "0"
    case Int(n) => n == 0
    case Real(r) => r == 0.0
    case Enum(n, named) => n == 0 && !named
    case Msg(m) => m.text == "" || m.text == "0"
    case _ => false
  }

  /** The integers a Go value of the kind can hold. */
  predicate InKind(kind: Kind, n: int) {
    match kind
    case Int32Kind => -TWO31 <= n < TWO31
    case EnumKind => -TWO31 <= n < TWO31
    case Int64Kind => -TWO63 <= n < TWO63
    case Uint32Kind => 0 <= n < TWO32
    case Uint64Kind => 0 <= n < TWO64
    case _ => false
  }

  predicate UnsignedKind(kind: Kind) {
    kind == Uint32Kind || kind == Uint64Kind
  }

  /** Kinds whose values are integers; an enum value is known by its number. */
  predicate NumberKind(kind: Kind) {
    IntegerKind(kind) || kind == EnumKind
  }

  predicate IntegerKind(kind: Kind) {
    kind in {Int32Kind, Int64Kind, Uint32Kind, Uint64Kind}
  }
}
