/** The update builders of crud/update.go and crud/partialupdate.go: one logical update in three
    shapes, with parameters numbered in different orders and the key map walked in any order. */
module UpdateBuilder {
  import opened Prelude
  import opened Sqldb
  import opened Text
  import opened Message
  import opened Sql
  import opened SqlBuilder
  import opened Codec

  /** A message as the values of its fields; a field the Go struct lacks has no value. */
  type GoMsg = map<string, GoVal>

  /** Which fields an update takes: a full update up to a last field number (all when it is not
      positive), or a partial update of the named fields. */
  datatype Selector = UpTo(last: int) | Named(names: seq<string>)

  datatype BuildError =
    | NoPrimaryKey | NothingToUpdate | NoSuchField(name: string) | NoDefault(name: string)
    | EncodeFailed(name: string, why: CodecError)

  /** A statement with its text and its arguments. */
  datatype Built = Built(sql: string, stmt: Stmt, vals: seq<GoVal>)

  // ---------- Fields ----------

  ghost predicate DistinctNames(fields: seq<FieldDesc>) {
    forall i, j :: 0 <= i < j < |fields| ==> fields[i].name != fields[j].name
  }

  /** GetPrimaryKeyFieldDescs. */
  function KeyFields(fields: seq<FieldDesc>): map<string, FieldDesc> {
    if fields == [] then map[]
    else
      var f := fields[|fields| - 1];
      var front := KeyFields(fields[..|fields| - 1]);
      if f.pdb.primary then front[f.name := f] else front
  }

  predicate Wanted(f: FieldDesc, sel: Selector) {
    && f.pdb.NeedInUpdate()
    && (sel.Named? ==> f.name in sel.names)
    && (sel.UpTo? && sel.last > 0 ==> f.number <= sel.last)
  }

  /** A field the update sets. */
  predicate Chosen(fields: seq<FieldDesc>, f: FieldDesc, sel: Selector) {
    f.name !in KeyFields(fields) && Wanted(f, sel)
  }

  // ---------- Argument of one field ----------

  /** What the Go type of a field guarantees of its value. */
  ghost predicate TypedValue(f: FieldDesc, v: GoVal) {
    match f.card
    case MapOf(key) => v.MapVal? && KeysOfKind(key, v.m)
    case ListOf => v.Slice?
    case Singular => if f.kind == MessageKind then v.Msg? || v == NilPtr else !v.MapVal? && !v.Slice? && !v.Msg?
  }

  ghost predicate Typed(msg: GoMsg, fields: seq<FieldDesc>) {
    forall i :: 0 <= i < |fields| && fields[i].name in msg ==> TypedValue(fields[i], msg[fields[i].name])
  }

  /** The value stored in place of a zero: NULL, or the default text. */
  function Substitute(f: FieldDesc, v: GoVal): Option<GoVal> {
    if IsZeroValue(v) && !f.pdb.notNull && (f.pdb.reference != "" || f.pdb.zeroAsNull) then Some(NullString)
    else if IsZeroValue(v) && f.pdb.defaultValue != "" then Some(Str(f.pdb.defaultValue))
    else None
  }

  /** The argument: the CTE form encodes a substitute as well, the other forms send it as it is. */
  ghost function ArgFor(f: FieldDesc, d: Dialect, v: GoVal, reencode: bool): Result<GoVal, CodecError>
    requires TypedValue(f, v)
  {
    var s := Substitute(f, v);
    if s.None? then Encoded(f, d, v)
    else if reencode then Encoded(f, d, s.value)
    else Ok(s.value)
  }

  /** An empty singular message whose stored value would be a default text. */
  predicate DefaultedMessage(f: FieldDesc, v: GoVal) {
    f.card == Singular && f.kind == MessageKind && Substitute(f, v).Some? && Substitute(f, v) != Some(NullString)
  }

  /** Encoding a substitute changes nothing, except that it fails for a defaulted message. */
  lemma ReencodeIsIdentity(f: FieldDesc, d: Dialect, v: GoVal)
    requires TypedValue(f, v)
    ensures if DefaultedMessage(f, v) then ArgFor(f, d, v, true) == Err(NotAMessage) && ArgFor(f, d, v, false).Ok?
            else ArgFor(f, d, v, true) == ArgFor(f, d, v, false)
  {
  }

  method FieldArg(f: FieldDesc, d: Dialect, value: GoVal, reencode: bool) returns (r: Result<GoVal, CodecError>)
    requires TypedValue(f, value)
    ensures r == ArgFor(f, d, value, reencode)
  {
    var val := value;
    var isValZero := IsZeroValue(val);
    var hasSetDefaultValue := false;
    if !f.pdb.notNull && (f.pdb.reference != "" || f.pdb.zeroAsNull) && isValZero {
      val := NullString;
      hasSetDefaultValue := true;
    } else if isValZero && f.pdb.defaultValue != "" {
      val := Str(f.pdb.defaultValue);
      hasSetDefaultValue := true;
    }
    if reencode || !hasSetDefaultValue {
      r := EncodeSQLArg(f, d, val);
    } else {
      r := Ok(val);
    }
  }

  // ---------- The SET list ----------

  datatype Changes = Changes(names: seq<string>, vals: seq<GoVal>)

  /** The names and arguments of the first n fields that the update sets, or the first error. */
  ghost function Collected(msg: GoMsg, fields: seq<FieldDesc>, n: nat, sel: Selector, d: Dialect, reencode: bool)
    : (r: Result<Changes, BuildError>)
    requires n <= |fields| && Typed(msg, fields)
    ensures r.Ok? ==> |r.value.names| == |r.value.vals|
  {
    if n == 0 then Ok(Changes([], []))
    else
      var front := Collected(msg, fields, n - 1, sel, d, reencode);
      var f := fields[n - 1];
      if front.Err? || !Chosen(fields, f, sel) then front
      else if f.name !in msg then Err(NoSuchField(f.name))
      else
        var arg := ArgFor(f, d, msg[f.name], reencode);
        if arg.Err? then Err(EncodeFailed(f.name, arg.error))
        else Ok(Changes(front.value.names + [f.name], front.value.vals + [arg.value]))
  }

  /** The partial update's set of wanted names. */
  method FieldSet(sel: Selector) returns (updateFields: map<string, bool>)
    ensures sel.Named? ==> updateFields.Keys == Elems(sel.names)
  {
    updateFields := map[];
    if sel.Named? {
      for j := 0 to |sel.names|
        invariant updateFields.Keys == Elems(sel.names[..j])
      {
        updateFields := updateFields[sel.names[j] := true];
      }
      assert sel.names[..|sel.names|] == sel.names;
    }
  }

  method WantsField(fields: seq<FieldDesc>, primaryKeys: map<string, FieldDesc>, updateFields: map<string, bool>,
                    f: FieldDesc, sel: Selector) returns (wanted: bool)
    requires primaryKeys == KeyFields(fields) && (sel.Named? ==> updateFields.Keys == Elems(sel.names))
    ensures wanted == Chosen(fields, f, sel)
  {
    if sel.Named? && f.name !in updateFields {
      return false;
    }
    if f.name in primaryKeys {
      return false;
    }
    if !f.pdb.NeedInUpdate() {
      return false;
    }
    if sel.UpTo? && sel.last > 0 && f.number > sel.last {
      return false;
    }
    wanted := true;
  }

  /** Collects one more field, or the error that ends the collection. */
  method CollectField(msg: GoMsg, fields: seq<FieldDesc>, primaryKeys: map<string, FieldDesc>,
                      updateFields: map<string, bool>, fi: nat, sel: Selector, d: Dialect, reencode: bool,
                      names: seq<string>, vals: seq<GoVal>)
    returns (r: Result<Changes, BuildError>)
    requires fi < |fields| && Typed(msg, fields) && primaryKeys == KeyFields(fields)
    requires sel.Named? ==> updateFields.Keys == Elems(sel.names)
    requires Collected(msg, fields, fi, sel, d, reencode) == Ok(Changes(names, vals))
    ensures r == Collected(msg, fields, fi + 1, sel, d, reencode)
  {
    var f := fields[fi];
    var wanted := WantsField(fields, primaryKeys, updateFields, f, sel);
    if !wanted {
      return Ok(Changes(names, vals));
    }
    if f.name !in msg {
      return Err(NoSuchField(f.name));
    }
    var arg := FieldArg(f, d, msg[f.name], reencode);
    if arg.Err? {
      return Err(EncodeFailed(f.name, arg.error));
    }
    r := Ok(Changes(names + [f.name], vals + [arg.value]));
  }

  method CollectChanges(msg: GoMsg, fields: seq<FieldDesc>, primaryKeys: map<string, FieldDesc>, sel: Selector,
                        d: Dialect, reencode: bool) returns (r: Result<Changes, BuildError>)
    requires Typed(msg, fields) && primaryKeys == KeyFields(fields)
    ensures r == Collected(msg, fields, |fields|, sel, d, reencode)
  {
    var updateFields := FieldSet(sel);
    var names: seq<string>, vals: seq<GoVal> := [], [];
    for fi := 0 to |fields|
      invariant Collected(msg, fields, fi, sel, d, reencode) == Ok(Changes(names, vals))
    {
      r := CollectField(msg, fields, primaryKeys, updateFields, fi, sel, d, reencode, names, vals);
      if r.Err? {
        CollectedErr(msg, fields, fi + 1, |fields|, sel, d, reencode);
        return;
      }
      names, vals := r.value.names, r.value.vals;
    }
    r := Ok(Changes(names, vals));
  }

  /** The first error stays. */
  lemma {:induction false} CollectedErr(msg: GoMsg, fields: seq<FieldDesc>, n: nat, m: nat, sel: Selector, d: Dialect,
                                        reencode: bool)
    requires n <= m <= |fields| && Typed(msg, fields)
    requires Collected(msg, fields, n, sel, d, reencode).Err?
    ensures Collected(msg, fields, m, sel, d, reencode) == Collected(msg, fields, n, sel, d, reencode)
    decreases m
  {
    if n < m {
      CollectedErr(msg, fields, n, m - 1, sel, d, reencode);
    }
  }

  // ---------- Conditions and assignments ----------

  /** The columns with placeholders numbered from `no`. */
  function Number(cols: seq<string>, style: PlaceholderStyle, no: nat): (r: seq<Assign>)
    ensures |r| == |cols|
    ensures forall i :: 0 <= i < |r| ==> r[i] == Assign(cols[i], HoleOf(style, no + i))
  {
    seq(|cols|, i requires 0 <= i < |cols| => Assign(cols[i], HoleOf(style, no + i)))
  }

  method WriteHole(style: PlaceholderStyle, sqlParaNo: nat) returns (text: string, next: nat)
    ensures text == HoleText(HoleOf(style, sqlParaNo))
    ensures next == if style == Question then sqlParaNo else sqlParaNo + 1
  {
    if style == Question {
      return "?", sqlParaNo;
    }
    return "$" + Itoa(sqlParaNo), sqlParaNo + 1;
  }

  /** Appends one more column with its placeholder, after a separator unless it is the first. */
  method WriteColumn(sb: string, cols: seq<string>, col: string, style: PlaceholderStyle, ghost firstParaNo: nat,
                     sqlParaNo: nat, sep: string)
    returns (sb': string, next: nat)
    requires sb == AssignsText(Number(cols, style, firstParaNo), sep)
    requires style == Dollar ==> sqlParaNo == firstParaNo + |cols|
    ensures sb' == AssignsText(Number(cols + [col], style, firstParaNo), sep)
    ensures next == if style == Question then sqlParaNo else sqlParaNo + 1
  {
    NumberSnoc(cols, col, style, firstParaNo, sep);
    sb' := if cols == [] then sb else sb + sep;
    var hole;
    hole, next := WriteHole(style, sqlParaNo);
    sb' := sb' + (col + EQUAL + hole);
  }

  lemma {:induction false} NumberSnoc(cols: seq<string>, c: string, style: PlaceholderStyle, no: nat, sep: string)
    ensures Number(cols + [c], style, no) == Number(cols, style, no) + [Assign(c, HoleOf(style, no + |cols|))]
    ensures AssignsText(Number(cols + [c], style, no), sep)
         == AssignsText(Number(cols, style, no), sep) + (if cols != [] then sep else "")
            + (c + EQUAL + HoleText(HoleOf(style, no + |cols|)))
  {
    var all := Number(cols + [c], style, no);
    assert all[..|all| - 1] == Number(cols, style, no);
  }

  method WriteAssignments(names: seq<string>, style: PlaceholderStyle, firstParaNo: nat) returns (sb: string, next: nat)
    ensures sb == AssignsText(Number(names, style, firstParaNo), COMMA)
    ensures next == if style == Question then firstParaNo else firstParaNo + |names|
  {
    sb, next := "", firstParaNo;
    for i := 0 to |names|
      invariant next == if style == Question then firstParaNo else firstParaNo + i
      invariant sb == AssignsText(Number(names[..i], style, firstParaNo), COMMA)
    {
      assert names[..i + 1] == names[..i] + [names[i]];
      sb, next := WriteColumn(sb, names[..i], names[i], style, firstParaNo, next, COMMA);
    }
    assert names[..|names|] == names;
  }

  /** An order in which the key map can be walked. */
  ghost predicate KeyOrder(fields: seq<FieldDesc>, ks: seq<string>) {
    Distinct(ks) && Elems(ks) == KeyFields(fields).Keys
  }

  ghost predicate HasKeys(msg: GoMsg, fields: seq<FieldDesc>) {
    KeyFields(fields).Keys <= msg.Keys
  }

  function ValuesAt(msg: GoMsg, ks: seq<string>): (r: seq<GoVal>)
    ensures |r| == |ks| && forall i :: 0 <= i < |ks| ==> r[i] == if ks[i] in msg then msg[ks[i]] else Nil
  {
    seq(|ks|, i requires 0 <= i < |ks| => if ks[i] in msg then msg[ks[i]] else Nil)
  }

  /** The keys taken from a map so far, and those that remain. */
  ghost predicate Walked(keys: set<string>, remaining: set<string>, ks: seq<string>) {
    remaining <= keys && Distinct(ks) && Elems(ks) == keys - remaining
  }

  lemma WalkOn(keys: set<string>, remaining: set<string>, ks: seq<string>, k: string)
    requires Walked(keys, remaining, ks) && k in remaining
    ensures Walked(keys, remaining - {k}, ks + [k]) && Elems(ks + [k]) == Elems(ks) + {k}
  {
    assert k !in Elems(ks);
    DistinctAppend(ks, k);
  }

  /** Writes the key conditions in an arbitrary order of the key map. */
  method WriteKeyConditions(msg: GoMsg, fields: seq<FieldDesc>, primaryKeys: map<string, FieldDesc>,
                            style: PlaceholderStyle, firstParaNo: nat)
    returns (err: Option<BuildError>, sb: string, vals: seq<GoVal>, next: nat, ks: seq<string>)
    requires primaryKeys == KeyFields(fields)
    ensures err.None? <==> HasKeys(msg, fields)
    ensures err.None? ==> KeyOrder(fields, ks) && vals == ValuesAt(msg, ks)
    ensures err.None? ==> sb == AssignsText(Number(ks, style, firstParaNo), AND)
    ensures err.None? ==> next == if style == Question then firstParaNo else firstParaNo + |ks|
  {
    err, sb, vals, next, ks := None, "", [], firstParaNo, [];
    var remaining := primaryKeys.Keys;
    while remaining != {}
      invariant Walked(primaryKeys.Keys, remaining, ks) && Elems(ks) <= msg.Keys
      invariant next == if style == Question then firstParaNo else firstParaNo + |ks|
      invariant vals == ValuesAt(msg, ks)
      invariant sb == AssignsText(Number(ks, style, firstParaNo), AND)
      decreases remaining
    {
      var fieldName :| fieldName in remaining;
      WalkOn(primaryKeys.Keys, remaining, ks, fieldName);
      remaining := remaining - {fieldName};
      sb, next := WriteColumn(sb, ks, fieldName, style, firstParaNo, next, AND);
      if fieldName !in msg {
        err := Some(NoSuchField(fieldName));
        return;
      }
      vals := vals + [msg[fieldName]];
      ks := ks + [fieldName];
    }
  }

  /** Writes the join conditions of the CTE form, walking the key map once more. */
  method WriteJoin(fields: seq<FieldDesc>, primaryKeys: map<string, FieldDesc>, partialText: bool)
    returns (sb: string, ks: seq<string>)
    requires primaryKeys == KeyFields(fields)
    ensures KeyOrder(fields, ks) && sb == JoinText(ks, partialText)
  {
    sb, ks := "", [];
    var firstPlaceholder := true;
    var remaining := primaryKeys.Keys;
    while remaining != {}
      invariant Walked(primaryKeys.Keys, remaining, ks) && firstPlaceholder == (ks == [])
      invariant sb == JoinText(ks, partialText)
      decreases remaining
    {
      var fieldName :| fieldName in remaining;
      WalkOn(primaryKeys.Keys, remaining, ks, fieldName);
      remaining := remaining - {fieldName};
      assert (ks + [fieldName])[..|ks|] == ks;
      if firstPlaceholder {
        firstPlaceholder := false;
      } else {
        sb := sb + AND;
      }
      sb := sb + " new." + fieldName + (if partialText then EQUAL + "old." else "=old.") + fieldName;
      ks := ks + [fieldName];
    }
  }

  // ---------- Predicted length ----------

  /** A walk over a key set in some order. */
  ghost predicate WalkOf(keys: set<string>, ks: seq<string>) {
    Distinct(ks) && Elems(ks) == keys
  }

  /** The separators of n items. */
  function Seps(n: nat, sepLen: nat): nat {
    if n <= 1 then 0 else Seps(n - 1, sepLen) + sepLen
  }

  /** What a list of columns with placeholders takes. */
  function ListLen(cols: seq<string>, hs: seq<nat>, sepLen: nat): nat {
    TotalLen(cols) + 3 * |cols| + Sum(hs) + Seps(|cols|, sepLen)
  }

  lemma ListLenSnoc(cols: seq<string>, hs: seq<nat>, sepLen: nat, c: string, h: nat)
    ensures ListLen(cols + [c], hs + [h], sepLen) == ListLen(cols, hs, sepLen) + (if cols != [] then sepLen else 0)
            + |c| + 3 + h
  {
    TotalSnoc(cols, c);
    SumSnoc(hs, h);
  }

  lemma {:induction false} AssignsLenSnoc(cols: seq<string>, style: PlaceholderStyle, no: nat, sep: string,
                                          hs: seq<nat>, c: string, h: nat)
    requires |AssignsText(Number(cols, style, no), sep)| == ListLen(cols, hs, |sep|)
    requires h == |HoleText(HoleOf(style, no + |cols|))|
    ensures |AssignsText(Number(cols + [c], style, no), sep)| == ListLen(cols + [c], hs + [h], |sep|)
  {
    NumberSnoc(cols, c, style, no, sep);
    ListLenSnoc(cols, hs, |sep|, c, h);
  }

  lemma {:induction false} AssignsLen(cols: seq<string>, style: PlaceholderStyle, no: nat, sep: string, hs: seq<nat>)
    requires |hs| == |cols| && LensOf(hs, style, no)
    ensures |AssignsText(Number(cols, style, no), sep)| == ListLen(cols, hs, |sep|)
  {
    if cols != [] {
      var n := |cols| - 1;
      assert cols == cols[..n] + [cols[n]] && hs == hs[..n] + [hs[n]];
      AssignsLen(cols[..n], style, no, sep, hs[..n]);
      AssignsLenSnoc(cols[..n], style, no, sep, hs[..n], cols[n], hs[n]);
    }
  }

  lemma {:induction false} TotalLenSplit(a: seq<string>, b: seq<string>)
    ensures TotalLen(a + b) == TotalLen(a) + TotalLen(b)
  {
    if b == [] {
      assert a + b == a;
    } else {
      assert (a + b)[..|a + b| - 1] == a + b[..|b| - 1];
      TotalLenSplit(a, b[..|b| - 1]);
    }
  }

  lemma {:induction false} TotalLenWithout(a: seq<string>, i: nat)
    requires i < |a|
    ensures TotalLen(a) == TotalLen(a[..i] + a[i + 1..]) + |a[i]|
  {
    assert a == a[..i] + ([a[i]] + a[i + 1..]);
    TotalLenSplit(a[..i], [a[i]] + a[i + 1..]);
    TotalLenSplit([a[i]], a[i + 1..]);
    TotalLenSplit(a[..i], a[i + 1..]);
    assert TotalLen([a[i]]) == TotalLen([]) + |a[i]|;
  }

  lemma WithoutDistinct(a: seq<string>, i: nat)
    requires Distinct(a) && i < |a|
    ensures Distinct(a[..i] + a[i + 1..]) && Elems(a[..i] + a[i + 1..]) == Elems(a) - {a[i]}
  {
    var r := a[..i] + a[i + 1..];
    forall x | x in Elems(a) - {a[i]}
      ensures x in r
    {
      var k :| 0 <= k < |a| && a[k] == x;
      assert r[if k < i then k else k - 1] == x;
    }
  }

  /** The total length of the columns does not depend on the order they are walked in. */
  lemma {:induction false} TotalLenAnyOrder(a: seq<string>, b: seq<string>)
    requires Distinct(a) && Distinct(b) && Elems(a) == Elems(b)
    ensures |a| == |b| && TotalLen(a) == TotalLen(b)
    decreases |b|
  {
    if b == [] {
      ElemsEmpty(a);
    } else {
      var n := |b| - 1;
      var x := b[n];
      assert x in Elems(b);
      var i :| 0 <= i < |a| && a[i] == x;
      WithoutDistinct(a, i);
      WithoutDistinct(b, n);
      assert b[..n] + b[n + 1..] == b[..n];
      TotalLenWithout(a, i);
      TotalLenAnyOrder(a[..i] + a[i + 1..], b[..n]);
    }
  }

  ghost function UpdateStmt(dbtable: string, names: seq<string>, ks: seq<string>, style: PlaceholderStyle,
                            ret: Returning): Stmt
  {
    Update(dbtable, Number(names, style, 1), Number(ks, style, 1 + |names|), ret)
  }

  ghost function CteStmt(dbtable: string, names: seq<string>, ks: seq<string>, js: seq<string>, style: PlaceholderStyle,
                         partialText: bool): Stmt {
    CteUpdate(dbtable, Number(ks, style, 1), Number(names, style, 1 + |ks|), js, partialText)
  }

  lemma UpdateLen(dbtable: string, names: seq<string>, ks: seq<string>, style: PlaceholderStyle, ret: Returning,
                  hs: seq<nat>, hs2: seq<nat>, no: nat)
    requires |hs| == |names| && LensOf(hs, style, 1)
    requires |hs2| == |ks| && LensOf(hs2, style, no) && no == 1 + |names|
    ensures |Render(UpdateStmt(dbtable, names, ks, style, ret))|
         == |UPDATE| + |dbtable| + |SET| + ListLen(names, hs, |COMMA|) + |WHERE| + ListLen(ks, hs2, |AND|)
           + |ReturningText(ret)|
  {
    AssignsLen(names, style, 1, COMMA, hs);
    AssignsLen(ks, style, no, AND, hs2);
  }

  /** The count so far, for the names written so far. */
  ghost predicate SetState(names: seq<string>, hs: seq<nat>, sqlParaNo: nat, capacity: int, style: PlaceholderStyle) {
    && |hs| == |names| && LensOf(hs, style, 1)
    && sqlParaNo == (if style == Question then 1 else 1 + |names|)
    && capacity == ListLen(names, hs, |COMMA|)
  }

  /** Adds the share of one assignment. */
  method SetCap(capacity: int, fieldName: string, first: bool, style: PlaceholderStyle, sqlParaNo: nat,
                ghost names: seq<string>, ghost hs: seq<nat>) returns (capacity': int, next: nat, ghost hs': seq<nat>)
    requires SetState(names, hs, sqlParaNo, capacity, style) && first == (names == []) && sqlParaNo < TWO63
    ensures SetState(names + [fieldName], hs', next, capacity', style)
  {
    capacity' := capacity;
    if !first {
      capacity' := capacity' + |COMMA|;
    }
    var holeCap := SqlPlaceholderCap(style, sqlParaNo);
    ListLenSnoc(names, hs, |COMMA|, fieldName, holeCap);
    LensSnoc(hs, style, 1, sqlParaNo);
    capacity' := capacity' + (|fieldName| + |EQUAL| + holeCap);
    next := if style != Question then sqlParaNo + 1 else sqlParaNo;
    hs' := hs + [holeCap];
  }

  method AssignmentsCap(valFieldNames: seq<string>, style: PlaceholderStyle)
    returns (capacity: int, sqlParaNo: nat, ghost hs: seq<nat>)
    requires |valFieldNames| < TWO31
    ensures SetState(valFieldNames, hs, sqlParaNo, capacity, style)
  {
    capacity, sqlParaNo, hs := 0, 1, [];
    for i := 0 to |valFieldNames|
      invariant SetState(valFieldNames[..i], hs, sqlParaNo, capacity, style)
    {
      assert valFieldNames[..i + 1] == valFieldNames[..i] + [valFieldNames[i]];
      capacity, sqlParaNo, hs := SetCap(capacity, valFieldNames[i], i == 0, style, sqlParaNo, valFieldNames[..i], hs);
    }
    assert valFieldNames[..|valFieldNames|] == valFieldNames;
  }

  /** The count so far, for the keys walked so far and the lengths of their placeholders. */
  ghost predicate CapState(keys: set<string>, remaining: set<string>, walked: seq<string>, hs: seq<nat>, i: nat,
                           sqlParaNo: nat, capacity: int, style: PlaceholderStyle, no: nat)
  {
    && Walked(keys, remaining, walked) && i == |walked| == |hs| && i + |remaining| == |keys|
    && LensOf(hs, style, no)
    && (style == Dollar ==> sqlParaNo == no + i) && (style == Question ==> sqlParaNo <= no)
    && capacity == ListLen(walked, hs, |AND|)
  }

  lemma CapNext(keys: set<string>, remaining: set<string>, walked: seq<string>, hs: seq<nat>, i: nat, sqlParaNo: nat,
                capacity: int, style: PlaceholderStyle, no: nat, c: string, holeCap: nat)
    requires CapState(keys, remaining, walked, hs, i, sqlParaNo, capacity, style, no) && c in remaining
    requires holeCap == |HoleText(HoleOf(style, sqlParaNo))|
    ensures CapState(keys, remaining - {c}, walked + [c], hs + [holeCap], i + 1, if style == Question then sqlParaNo
                     else sqlParaNo + 1,
                     capacity + (if i > 0 then |AND| else 0) + (|c| + |EQUAL| + holeCap), style, no)
  {
    WalkOn(keys, remaining, walked, c);
    ListLenSnoc(walked, hs, |AND|, c, holeCap);
    LensSnoc(hs, style, no, sqlParaNo);
  }

  /** Adds the share of one key condition. */
  method KeyCap(capacity: int, fieldName: string, i: nat, style: PlaceholderStyle, sqlParaNo: nat,
                ghost keys: set<string>, ghost remaining: set<string>, ghost walked: seq<string>, ghost hs: seq<nat>,
                ghost no: nat)
    returns (capacity': int, next: nat, ghost hs': seq<nat>)
    requires CapState(keys, remaining, walked, hs, i, sqlParaNo, capacity, style, no) && fieldName in remaining
             && sqlParaNo < TWO63
    ensures CapState(keys, remaining - {fieldName}, walked + [fieldName], hs', i + 1, next, capacity', style, no)
  {
    var holeCap := SqlPlaceholderCap(style, sqlParaNo);
    CapNext(keys, remaining, walked, hs, i, sqlParaNo, capacity, style, no, fieldName, holeCap);
    hs' := hs + [holeCap];
    capacity' := capacity;
    if i > 0 {
      capacity' := capacity' + |AND|;
    }
    capacity' := capacity' + (|fieldName| + |EQUAL| + holeCap);
    next := if style == Question then sqlParaNo else sqlParaNo + 1;
  }

  /** The share of the key conditions, walking the key map in any order. */
  method KeyConditionsCap(primaryKeys: map<string, FieldDesc>, style: PlaceholderStyle, firstParaNo: nat, ghost no: nat)
    returns (capacity: int, ghost walked: seq<string>, ghost hs: seq<nat>)
    requires no <= TWO31 && |primaryKeys| < TWO31
    requires if style == Question then firstParaNo <= no else firstParaNo == no
    ensures WalkOf(primaryKeys.Keys, walked) && |hs| == |walked| && LensOf(hs, style, no)
            && capacity == ListLen(walked, hs, |AND|)
  {
    capacity, walked, hs := 0, [], [];
    var sqlParaNo := firstParaNo;
    var i := 0;
    var remaining := primaryKeys.Keys;
    while remaining != {}
      invariant CapState(primaryKeys.Keys, remaining, walked, hs, i, sqlParaNo, capacity, style, no)
      decreases remaining
    {
      var fieldName :| fieldName in remaining;
      capacity, sqlParaNo, hs := KeyCap(capacity, fieldName, i, style, sqlParaNo, primaryKeys.Keys, remaining, walked,
                                        hs, no);
      remaining := remaining - {fieldName};
      walked := walked + [fieldName];
      i := i + 1;
    }
  }

  /** dbBuildSqlUpdateCap: the exact length of the statement, for every order of the keys. */
  method DbBuildSqlUpdateCap(dbtable: string, valFieldNames: seq<string>, primaryKeys: map<string, FieldDesc>,
                             style: PlaceholderStyle, returningUpdated: bool) returns (capacity: int)
    requires |valFieldNames| < TWO31 && |primaryKeys| < TWO31
    ensures forall ks :: WalkOf(primaryKeys.Keys, ks) ==>
              capacity == |Render(UpdateStmt(dbtable, valFieldNames, ks, style, if returningUpdated then NewRow
                                             else NoRows))|
  {
    capacity := |UPDATE| + |dbtable| + |SET|;
    var setCap, sqlParaNo, hs := AssignmentsCap(valFieldNames, style);
    capacity := capacity + setCap + |WHERE|;
    var keyCap, walked, hs2 := KeyConditionsCap(primaryKeys, style, sqlParaNo, 1 + |valFieldNames|);
    capacity := capacity + keyCap;
    if returningUpdated {
      capacity := capacity + |" RETURNING * "|;
    }
    capacity := capacity + |SEMICOLON|;
    forall ks | WalkOf(primaryKeys.Keys, ks)
      ensures capacity
              == |Render(UpdateStmt(dbtable, valFieldNames, ks, style, if returningUpdated then NewRow else NoRows))|
    {
      TotalLenAnyOrder(walked, ks);
      UpdateLen(dbtable, valFieldNames, ks, style, if returningUpdated then NewRow
                else NoRows, hs, hs2, 1 + |valFieldNames|);
    }
  }

  // ---------- The builders ----------

  lemma {:induction false} KeyFieldsFew(fields: seq<FieldDesc>)
    ensures |KeyFields(fields)| <= |fields|
    decreases |fields|
  {
    if fields != [] {
      KeyFieldsFew(fields[..|fields| - 1]);
    }
  }

  lemma {:induction false} CollectedFew(msg: GoMsg, fields: seq<FieldDesc>, n: nat, sel: Selector, d: Dialect,
                                        reencode: bool)
    requires n <= |fields| && Typed(msg, fields)
    ensures var r := Collected(msg, fields, n, sel, d, reencode); r.Ok? ==> |r.value.names| <= n
    decreases n
  {
    if n > 0 {
      CollectedFew(msg, fields, n - 1, sel, d, reencode);
    }
  }

  ghost function Changing(msg: GoMsg, fields: seq<FieldDesc>, sel: Selector, d: Dialect,
                          reencode: bool): Result<Changes, BuildError>
    requires Typed(msg, fields)
  {
    Collected(msg, fields, |fields|, sel, d, reencode)
  }

  /** The builder can write the statement: there is a key, the message has it, every chosen field
      can be encoded, and there is one if the shape insists on it. */
  ghost predicate Buildable(msg: GoMsg, fields: seq<FieldDesc>, sel: Selector, d: Dialect, reencode: bool,
                            needsField: bool)
    requires Typed(msg, fields)
  {
    var ch := Changing(msg, fields, sel, d, reencode);
    && KeyFields(fields) != map[] && HasKeys(msg, fields)
    && ch.Ok? && (needsField ==> ch.value.names != [])
  }

  /** The statement built: an update of the collected changes, its conditions over the keys in the order ks. */
  ghost predicate IsUpdate(b: Built, dbtable: string, ch: Changes, msg: GoMsg, ks: seq<string>, style: PlaceholderStyle,
                           ret: Returning)
  {
    && b.stmt == UpdateStmt(dbtable, ch.names, ks, style, ret)
    && b.vals == ch.vals + ValuesAt(msg, ks)
    && b.sql == Render(b.stmt)
  }

  ghost predicate IsCteUpdate(b: Built, dbtable: string, ch: Changes, msg: GoMsg, ks: seq<string>, js: seq<string>,
                              style: PlaceholderStyle, partialText: bool)
  {
    && b.stmt == CteStmt(dbtable, ch.names, ks, js, style, partialText)
    && b.vals == ValuesAt(msg, ks) + ch.vals
    && b.sql == Render(b.stmt)
  }

  /** How a builder of the update shape ends. */
  ghost predicate UpdateOutcome(r: Result<Built, BuildError>, msg: GoMsg, fields: seq<FieldDesc>, sel: Selector,
                                d: Dialect, needsField: bool, dbtable: string, ret: Returning, ks: seq<string>)
    requires Typed(msg, fields)
  {
    if Buildable(msg, fields, sel, d, false, needsField) then
      && r.Ok? && KeyOrder(fields, ks)
      && IsUpdate(r.value, dbtable, Changing(msg, fields, sel, d, false).value, msg, ks, PlaceholderOf(d), ret)
    else r.Err?
  }

  /** How a builder of the common-table-expression shape ends. */
  ghost predicate CteOutcome(r: Result<Built, BuildError>, msg: GoMsg, fields: seq<FieldDesc>, sel: Selector,
                             d: Dialect, dbtable: string, ks: seq<string>, js: seq<string>)
    requires Typed(msg, fields)
  {
    if Buildable(msg, fields, sel, d, true, true) then
      && r.Ok? && KeyOrder(fields, ks) && KeyOrder(fields, js)
      && IsCteUpdate(r.value, dbtable, Changing(msg, fields, sel, d, true).value, msg, ks, js, PlaceholderOf(d),
                     sel.Named?)
    else r.Err?
  }

  method AssembleUpdate(dbtable: string, ch: Changes, keyVals: seq<GoVal>, sets: string, conds: string,
                        order: seq<string>, style: PlaceholderStyle, ret: Returning, ghost msg: GoMsg, ghost no: nat)
    returns (b: Built)
    requires sets == AssignsText(Number(ch.names, style, 1), COMMA)
    requires no == if style == Question then 1 else 1 + |ch.names|
    requires conds == AssignsText(Number(order, style, no), AND) && keyVals == ValuesAt(msg, order)
    ensures IsUpdate(b, dbtable, ch, msg, order, style, ret)
  {
    NumberAfter(order, style, 1, |ch.names|);
    b := Built(UPDATE + dbtable + SET + sets + WHERE + conds + ReturningText(ret),
               Update(dbtable, Number(ch.names, style, 1), Number(order, style, 1 + |ch.names|), ret),
               ch.vals + keyVals);
  }

  method AssembleCte(dbtable: string, ch: Changes, keyVals: seq<GoVal>, sets: string, conds: string, join: string,
                     order: seq<string>, order2: seq<string>, style: PlaceholderStyle, partialText: bool,
                     ghost msg: GoMsg, ghost no: nat) returns (b: Built)
    requires conds == AssignsText(Number(order, style, 1), AND) && keyVals == ValuesAt(msg, order)
    requires no == if style == Question then 1 else 1 + |order|
    requires sets == AssignsText(Number(ch.names, style, no), COMMA)
    requires join == JoinText(order2, partialText)
    ensures IsCteUpdate(b, dbtable, ch, msg, order, order2, style, partialText)
  {
    NumberAfter(ch.names, style, 1, |order|);
    var sql := "with old as (select * from " + dbtable + WHERE + conds
      + (if partialText then " ) " + UPDATE + dbtable + " new " + SET else " ) UPDATE " + dbtable + " new set ")
      + sets
      + (if partialText then " FROM " + " old " + WHERE else " from old where ")
      + join + " RETURNING old.*,new.* ;";
    b := Built(sql,
               CteUpdate(dbtable, Number(order, style, 1), Number(ch.names, style, 1 + |order|), order2, partialText),
               keyVals + ch.vals);
  }

  function SetColumns(sets: seq<Assign>): (r: seq<string>)
    ensures |r| == |sets| && forall i :: 0 <= i < |r| ==> r[i] == sets[i].col
  {
    seq(|sets|, i requires 0 <= i < |sets| => sets[i].col)
  }

  /** The part the update-shaped builders share. */
  method BuildUpdate(msg: GoMsg, sel: Selector, dbtable: string, fields: seq<FieldDesc>, d: Dialect, needsField: bool,
                     ret: Returning)
    returns (r: Result<Built, BuildError>, ghost ks: seq<string>)
    requires Typed(msg, fields)
    ensures UpdateOutcome(r, msg, fields, sel, d, needsField, dbtable, ret, ks)
  {
    ks := [];
    var primaryKeys := KeyFields(fields);
    if primaryKeys == map[] {
      return Err(NoPrimaryKey), ks;
    }
    var ch := CollectChanges(msg, fields, primaryKeys, sel, d, false);
    if ch.Err? {
      return Err(ch.error), ks;
    }
    if needsField && ch.value.names == [] {
      return Err(NothingToUpdate), ks;
    }
    r, ks := WriteUpdate(msg, sel, dbtable, fields, primaryKeys, ch.value, d, needsField, ret);
  }

  method WriteUpdate(msg: GoMsg, sel: Selector, dbtable: string, fields: seq<FieldDesc>,
                     primaryKeys: map<string, FieldDesc>, ch: Changes, d: Dialect, needsField: bool, ret: Returning)
    returns (r: Result<Built, BuildError>, ghost ks: seq<string>)
    requires Typed(msg, fields) && Changing(msg, fields, sel, d, false) == Ok(ch)
    requires primaryKeys == KeyFields(fields) != map[] && (needsField ==> ch.names != [])
    ensures UpdateOutcome(r, msg, fields, sel, d, needsField, dbtable, ret, ks)
  {
    ks := [];
    var style := PlaceholderOf(d);
    var sets, sqlParaNo := WriteAssignments(ch.names, style, 1);
    var err, conds, keyVals, next, order := WriteKeyConditions(msg, fields, primaryKeys, style, sqlParaNo);
    if err.Some? {
      return Err(err.value), ks;
    }
    ks := order;
    var built := AssembleUpdate(dbtable, ch, keyVals, sets, conds, order, style, ret, msg, sqlParaNo);
    r := Ok(built);
  }

  /** dbBuildSqlUpdate and dbBuildSqlUpdatePartial. Only the partial builder insists on a field;
      only the full one reserves space, exactly as much as its text takes, although prediction
      and writing walk the key map independently. */
  method DbBuildSqlUpdate(msg: GoMsg, sel: Selector, dbschema: string, tableName: string, fields: seq<FieldDesc>,
                          d: Dialect, returnUpdated: bool)
    returns (r: Result<Built, BuildError>, capacity: int, ghost ks: seq<string>)
    requires Typed(msg, fields) && |fields| < TWO31
    ensures UpdateOutcome(r, msg, fields, sel, d, sel.Named?, BuildDbTableName(tableName, dbschema, d),
                          if returnUpdated && d != Mysql then NewRow else NoRows, ks)
    ensures r.Ok? && sel.UpTo? ==> |r.value.sql| == capacity
  {
    var dbtable := BuildDbTableName(tableName, dbschema, d);
    var returningUpdated := returnUpdated && d != Mysql;
    capacity := 0;
    r, ks := BuildUpdate(msg, sel, dbtable, fields, d, sel.Named?, if returningUpdated then NewRow else NoRows);
    if r.Ok? && sel.UpTo? {
      KeyFieldsFew(fields);
      CollectedFew(msg, fields, |fields|, sel, d, false);
      var names := SetColumns(r.value.stmt.sets);
      assert names == Changing(msg, fields, sel, d, false).value.names;
      capacity := DbBuildSqlUpdateCap(dbtable, names, KeyFields(fields), PlaceholderOf(d), returningUpdated);
      assert WalkOf(KeyFields(fields).Keys, ks);
    }
  }

  /** With question marks the running number stays where it was, and does not matter. */
  lemma NumberAfter(cols: seq<string>, style: PlaceholderStyle, no: nat, n: nat)
    ensures Number(cols, style, no + n) == Number(cols, style, if style == Question then no else no + n)
  {
  }

  /** dbBuildSqlUpdateOldAndNew and its partial twin: the common-table-expression shape. */
  method DbBuildSqlUpdateOldAndNew(msg: GoMsg, sel: Selector, dbschema: string, tableName: string,
                                   fields: seq<FieldDesc>, d: Dialect)
    returns (r: Result<Built, BuildError>, ghost ks: seq<string>, ghost js: seq<string>)
    requires Typed(msg, fields)
    ensures r.Ok? ==> r.value.sql == Render(r.value.stmt)
    ensures CteOutcome(r, msg, fields, sel, d, BuildDbTableName(tableName, dbschema, d), ks, js)
  {
    ks, js := [], [];
    var dbtable := BuildDbTableName(tableName, dbschema, d);
    var style := PlaceholderOf(d);
    var primaryKeys := KeyFields(fields);
    if primaryKeys == map[] {
      return Err(NoPrimaryKey), ks, js;
    }
    var err, conds, keyVals, sqlParaNo, order := WriteKeyConditions(msg, fields, primaryKeys, style, 1);
    if err.Some? {
      return Err(err.value), ks, js;
    }
    var ch := CollectChanges(msg, fields, primaryKeys, sel, d, true);
    if ch.Err? {
      return Err(ch.error), ks, js;
    }
    if ch.value.names == [] {
      return Err(NothingToUpdate), ks, js;
    }
    var built, order2 := WriteCte(dbtable, ch.value, fields, primaryKeys, conds, keyVals, order, style, sqlParaNo,
                                  sel.Named?, msg);
    ks, js := order, order2;
    r := Ok(built);
  }

  /** Writes the SET list and the join after the key conditions. */
  method WriteCte(dbtable: string, ch: Changes, fields: seq<FieldDesc>, primaryKeys: map<string, FieldDesc>,
                  conds: string, keyVals: seq<GoVal>, order: seq<string>, style: PlaceholderStyle, sqlParaNo: nat,
                  partialText: bool, ghost msg: GoMsg)
    returns (b: Built, js: seq<string>)
    requires primaryKeys == KeyFields(fields)
    requires conds == AssignsText(Number(order, style, 1), AND) && keyVals == ValuesAt(msg, order)
    requires sqlParaNo == if style == Question then 1 else 1 + |order|
    ensures KeyOrder(fields, js) && IsCteUpdate(b, dbtable, ch, msg, order, js, style, partialText)
  {
    var sets, next := WriteAssignments(ch.names, style, sqlParaNo);
    var join;
    join, js := WriteJoin(fields, primaryKeys, partialText);
    b := AssembleCte(dbtable, ch, keyVals, sets, conds, join, order, js, style, partialText, msg, sqlParaNo);
  }

  /** dbBuildSqlUpdateOldAndNewNative and its partial twin: UPDATE with RETURNING OLD.*,NEW.*. */
  method DbBuildSqlUpdateOldAndNewNative(msg: GoMsg, sel: Selector, dbschema: string, tableName: string,
                                         fields: seq<FieldDesc>, d: Dialect)
    returns (r: Result<Built, BuildError>, ghost ks: seq<string>)
    requires Typed(msg, fields)
    ensures r.Ok? ==> r.value.sql == Render(r.value.stmt)
    ensures UpdateOutcome(r, msg, fields, sel, d, true, BuildDbTableName(tableName, dbschema, d), OldAndNew, ks)
  {
    r, ks := BuildUpdate(msg, sel, BuildDbTableName(tableName, dbschema, d), fields, d, true, OldAndNew);
  }

  /** dbBuildSqlSelectOne with no key columns given: select by primary key. */
  method DbBuildSqlSelectOne(msg: GoMsg, dbschema: string, tableName: string, fields: seq<FieldDesc>, d: Dialect)
    returns (r: Result<Built, BuildError>, ghost ks: seq<string>)
    ensures r.Ok? <==> KeyFields(fields) != map[] && HasKeys(msg, fields)
    ensures r.Ok? ==>
              && KeyOrder(fields, ks)
              && r.value.stmt == SelectOne(BuildDbTableName(tableName, dbschema, d), Number(ks, PlaceholderOf(d), 1))
              && r.value.vals == ValuesAt(msg, ks)
              && r.value.sql == Render(r.value.stmt)
  {
    ks := [];
    var dbtable := BuildDbTableName(tableName, dbschema, d);
    var primaryKeys := KeyFields(fields);
    if primaryKeys == map[] {
      return Err(NoPrimaryKey), ks;
    }
    var err, conds, keyVals, next, order := WriteKeyConditions(msg, fields, primaryKeys, PlaceholderOf(d), 1);
    if err.Some? {
      return Err(err.value), ks;
    }
    ks := order;
    var sql := " SELECT " + " * " + " FROM " + dbtable + WHERE + conds + " LIMIT " + " 1 ";
    r := Ok(Built(sql, SelectOne(dbtable, Number(order, PlaceholderOf(d), 1)), keyVals));
  }

  /** dbBuildSqlDelete. */
  method DbBuildSqlDelete(msg: GoMsg, dbschema: string, tableName: string, msgName: string, fields: seq<FieldDesc>,
                          d: Dialect, returnDeleted: bool)
    returns (r: Result<Built, BuildError>, ghost ks: seq<string>)
    ensures r.Ok? <==> KeyFields(fields) != map[] && HasKeys(msg, fields)
    ensures r.Ok? ==>
              && KeyOrder(fields, ks)
              && r.value.stmt == Delete(BuildDbTableName(NameOr(tableName, msgName), dbschema, d),
                                        Number(ks, PlaceholderOf(d), 1),
                                        if returnDeleted && d != Mysql then NewRow else NoRows)
              && r.value.vals == ValuesAt(msg, ks)
              && r.value.sql == Render(r.value.stmt)
  {
    ks := [];
    var dbtable := BuildDbTableName(NameOr(tableName, msgName), dbschema, d);
    var primaryKeys := KeyFields(fields);
    if primaryKeys == map[] {
      return Err(NoPrimaryKey), ks;
    }
    var err, conds, keyVals, next, order := WriteKeyConditions(msg, fields, primaryKeys, PlaceholderOf(d), 1);
    if err.Some? {
      return Err(err.value), ks;
    }
    ks := order;
    var ret := if returnDeleted && d != Mysql then NewRow else NoRows;
    var sql := "DELETE FROM " + dbtable + WHERE + conds + ReturningText(ret);
    r := Ok(Built(sql, Delete(dbtable, Number(order, PlaceholderOf(d), 1), ret), keyVals));
  }
}
