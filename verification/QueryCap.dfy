/** The length predictor of table queries (crud/tablequery.go:143-207). */
module QueryCap {
  import opened Prelude
  import opened Sqldb
  import opened Text
  import opened Sql
  import opened SqlBuilder
  import opened UpdateBuilder
  import opened Where2
  import opened QuerySql

  // ---------- Lengths ----------

  /** The separators between n conditions, and between n columns. */
  function Gaps(n: nat): nat {
    if n <= 1 then 0 else 5 * n - 5
  }

  function CommaGaps(n: nat): nat {
    if n <= 1 then 0 else 3 * n - 3
  }

  lemma {:induction false} JoinAndLen(parts: seq<string>)
    ensures |Join(parts, AND)| == TotalLen(parts) + Gaps(|parts|)
  {
    if parts != [] {
      JoinAndLen(parts[..|parts| - 1]);
    }
  }

  lemma {:induction false} JoinCommaLen(parts: seq<string>)
    ensures |Join(parts, COMMA)| == TotalLen(parts) + CommaGaps(|parts|)
  {
    if parts != [] {
      JoinCommaLen(parts[..|parts| - 1]);
    }
  }

  lemma {:induction false} EqualitySum(texts: seq<string>, ws: seq<string>, hs: seq<nat>)
    requires |texts| == |ws| == |hs| && forall i :: 0 <= i < |ws| ==> |texts[i]| == |ws[i]| + 3 + hs[i]
    ensures TotalLen(texts) == TotalLen(ws) + 3 * |ws| + Sum(hs)
  {
    if ws != [] {
      var n := |ws| - 1;
      EqualitySum(texts[..n], ws[..n], hs[..n]);
    }
  }

  lemma {:induction false} OperatorSum(texts: seq<string>, vs: seq<string>, hs: seq<nat>)
    requires |texts| == |vs| == |hs| && forall i :: 0 <= i < |vs| ==> |texts[i]| <= 140 + |vs[i]| + hs[i]
    ensures TotalLen(texts) <= 3 * TotalLen(vs) + 192 * |vs| + 2 * Sum(hs)
  {
    if vs != [] {
      var n := |vs| - 1;
      OperatorSum(texts[..n], vs[..n], hs[..n]);
    }
  }

  lemma {:induction false} EqualityTexts(ws: seq<string>, style: PlaceholderStyle, no: nat, hs: seq<nat>)
    requires LensOf(hs, style, no) && |hs| == |ws|
    ensures TotalLen(CondTexts(WhereConds(ws, style, no))) == TotalLen(ws) + 3 * |ws| + Sum(hs)
  {
    var texts := CondTexts(WhereConds(ws, style, no));
    forall i | 0 <= i < |ws|
      ensures |texts[i]| == |ws[i]| + 3 + hs[i]
    {
      assert texts[i] == ws[i] + " = " + HoleText(HoleOf(style, no + i));
    }
    EqualitySum(texts, ws, hs);
  }

  lemma {:induction false} OperatorTexts(vs: seq<string>, pieces: seq<Piece>, style: PlaceholderStyle, no: nat,
                                         hs: seq<nat>)
    requires |vs| == |pieces| == |hs| && LensOf(hs, style, no)
    ensures TotalLen(CondTexts(Where2Conds(vs, pieces, style, no))) <= 3 * TotalLen(vs) + 192 * |vs| + 2 * Sum(hs)
  {
    var texts := CondTexts(Where2Conds(vs, pieces, style, no));
    forall i | 0 <= i < |vs|
      ensures |texts[i]| <= 140 + |vs[i]| + hs[i]
    {
      ShapeLen(pieces[i].shape, vs[i], HoleText(HoleOf(style, no + i)));
      assert texts[i] == ShapeText(pieces[i].shape, vs[i], HoleText(HoleOf(style, no + i)));
    }
    OperatorSum(texts, vs, hs);
  }

  function GrantLen(p: Permission): nat {
    if p.text == "" then 0 else 6 + |p.text|
  }

  /** What the permission, the equality conditions and the operator conditions take, with the
      separators between them; hs and hs2 are the lengths of their placeholders. */
  function ConditionsLen(p: Permission, ws: seq<string>, hs: seq<nat>, vs: seq<string>, hs2: seq<nat>): nat {
    GrantLen(p) + (TotalLen(ws) + 3 * |ws| + Sum(hs)) + (3 * TotalLen(vs) + 192 * |vs| + 2 * Sum(hs2))
    + Gaps(|GrantConds(p)| + |ws| + |vs|)
  }

  lemma GrantTotal(p: Permission)
    ensures TotalLen(CondTexts(GrantConds(p))) == GrantLen(p)
  {
    if p.text != "" {
      assert CondTexts(GrantConds(p)) == [] + [" ( " + p.text + " ) "];
      TotalSnoc([], " ( " + p.text + " ) ");
    }
  }

  lemma TextsSplit(a: seq<Cond>, b: seq<Cond>)
    ensures TotalLen(CondTexts(a + b)) == TotalLen(CondTexts(a)) + TotalLen(CondTexts(b))
  {
    MapSplit(CondText, a, b);
    TotalLenSplit(CondTexts(a), CondTexts(b));
  }

  lemma {:induction false} WithEqualities(p: Permission, ws: seq<string>, style: PlaceholderStyle, hs: seq<nat>)
    requires LensOf(hs, style, 1 + |GrantArgs(p)|) && |hs| == |ws|
    ensures TotalLen(CondTexts(FirstConds(p, style, ws))) == GrantLen(p) + (TotalLen(ws) + 3 * |ws| + Sum(hs))
    ensures |FirstConds(p, style, ws)| == |GrantConds(p)| + |ws|
  {
    GrantTotal(p);
    EqualityTexts(ws, style, 1 + |GrantArgs(p)|, hs);
    TextsSplit(GrantConds(p), WhereConds(ws, style, 1 + |GrantArgs(p)|));
  }

  lemma {:induction false} WithOperators(pre: seq<Cond>, vs: seq<string>, pieces: seq<Piece>, style: PlaceholderStyle,
                                         no: nat, hs: seq<nat>)
    requires |vs| == |pieces| == |hs| && LensOf(hs, style, no)
    ensures |CondsText(AndThen(pre, vs, pieces, style, no))|
         <= TotalLen(CondTexts(pre)) + (3 * TotalLen(vs) + 192 * |vs| + 2 * Sum(hs)) + Gaps(|pre| + |vs|)
  {
    OperatorTexts(vs, pieces, style, no, hs);
    TextsSplit(pre, Where2Conds(vs, pieces, style, no));
    JoinAndLen(CondTexts(AndThen(pre, vs, pieces, style, no)));
  }

  /** The conditions of a statement of the request fit in what is reserved for them. */
  lemma ConditionsFit(p: Permission, style: PlaceholderStyle, ws: seq<string>, hs: seq<nat>, vs: seq<string>,
                      pieces: seq<Piece>, hs2: seq<nat>, no2: nat)
    requires LensOf(hs, style, 1 + |GrantArgs(p)|) && |hs| == |ws|
    requires |vs| == |pieces| == |hs2| && LensOf(hs2, style, no2) && no2 == 1 + |GrantArgs(p)| + |ws|
    ensures |CondsText(CondsFor(p, style, ws, vs, pieces))| <= ConditionsLen(p, ws, hs, vs, hs2)
  {
    CondsForIs(p, style, ws, vs, pieces, no2);
    WithEqualities(p, ws, style, hs);
    WithOperators(FirstConds(p, style, ws), vs, pieces, style, no2, hs2);
  }

  lemma CondsForIs(p: Permission, style: PlaceholderStyle, ws: seq<string>, vs: seq<string>, pieces: seq<Piece>,
                   no2: nat)
    requires |vs| == |pieces| && no2 == 1 + |GrantArgs(p)| + |ws|
    ensures CondsFor(p, style, ws, vs, pieces) == AndThen(FirstConds(p, style, ws), vs, pieces, style, no2)
  {
  }

  lemma ConditionsAnyOrder(p: Permission, ws: seq<string>, hs: seq<nat>, vs: seq<string>, hs2: seq<nat>,
                           ws2: seq<string>, vs2: seq<string>)
    requires Distinct(ws) && Distinct(ws2) && Elems(ws) == Elems(ws2)
    requires Distinct(vs) && Distinct(vs2) && Elems(vs) == Elems(vs2)
    ensures |ws| == |ws2| && |vs| == |vs2|
    ensures ConditionsLen(p, ws, hs, vs, hs2) == ConditionsLen(p, ws2, hs, vs2, hs2)
  {
    TotalLenAnyOrder(ws, ws2);
    TotalLenAnyOrder(vs, vs2);
  }

  // ---------- Prediction ----------

  method ColumnsCap(columns: seq<string>) returns (capacity: int)
    ensures capacity == |ColumnsText(columns)|
  {
    JoinCommaLen(columns);
    if |columns| == 0 {
      return |" * "|;
    }
    capacity := 0;
    for i := 0 to |columns|
      invariant capacity == TotalLen(columns[..i]) + CommaGaps(i)
    {
      assert columns[..i + 1] == columns[..i] + [columns[i]];
      TotalSnoc(columns[..i], columns[i]);
      if i > 0 {
        capacity := capacity + |COMMA|;
      }
      capacity := capacity + |columns[i]|;
    }
    assert columns[..|columns|] == columns;
  }

  /** The names walked so far, the lengths of their placeholders, the running number, and whether a
      condition was written yet; k conditions stand in front. With question marks the running
      number stays, and does not matter. */
  ghost predicate Counting(keys: set<string>, remaining: set<string>, walked: seq<string>, hs: seq<nat>, k: nat,
                           style: PlaceholderStyle, no: nat, sqlParaNo: nat, first: bool)
  {
    && Walked(keys, remaining, walked) && |walked| + |remaining| == |keys|
    && |hs| == |walked| && LensOf(hs, style, no)
    && (style == Dollar ==> sqlParaNo == no + |walked|)
    && (style == Question ==> sqlParaNo <= no)
    && first == (k + |walked| == 0)
  }

  lemma CountOn(keys: set<string>, remaining: set<string>, walked: seq<string>, hs: seq<nat>, k: nat,
                style: PlaceholderStyle, no: nat, sqlParaNo: nat, first: bool, c: string, holeCap: nat)
    requires Counting(keys, remaining, walked, hs, k, style, no, sqlParaNo, first) && c in remaining
    requires holeCap == |HoleText(HoleOf(style, sqlParaNo))|
    ensures Counting(keys, remaining - {c}, walked + [c], hs + [holeCap], k, style, no,
                     if style == Question then sqlParaNo else sqlParaNo + 1, false)
  {
    WalkOn(keys, remaining, walked, c);
    LensSnoc(hs, style, no, sqlParaNo);
  }

  /** The share of the equality conditions, with k conditions in front of them. */
  ghost predicate WhereCount(capacity: int, walked: seq<string>, hs: seq<nat>, k: nat) {
    capacity == TotalLen(walked) + 3 * |walked| + Sum(hs) + Gaps(k + |walked|) - Gaps(k)
  }

  /** The share of the operator conditions, with k conditions in front of them. */
  ghost predicate Where2Count(capacity: int, walked: seq<string>, hs: seq<nat>, k: nat) {
    capacity == 3 * TotalLen(walked) + 192 * |walked| + 2 * Sum(hs) + Gaps(k + |walked|) - Gaps(k)
  }

  /** Adds the share of one equality condition. */
  method EqualityCap(capacity: int, fieldName: string, first: bool, style: PlaceholderStyle, sqlParaNo: nat,
                     ghost walked: seq<string>, ghost hs: seq<nat>, ghost k: nat)
    returns (capacity': int, ghost holeCap: nat)
    requires WhereCount(capacity, walked, hs, k) && first == (k + |walked| == 0) && sqlParaNo < TWO63
    ensures holeCap == |HoleText(HoleOf(style, sqlParaNo))|
    ensures WhereCount(capacity', walked + [fieldName], hs + [holeCap], k)
  {
    TotalSnoc(walked, fieldName);
    capacity' := capacity;
    if !first {
      capacity' := capacity' + |AND|;
    }
    var c := SqlPlaceholderCap(style, sqlParaNo);
    SumSnoc(hs, c);
    capacity', holeCap := capacity' + (|fieldName| + |EQUAL| + c), c;
  }

  method WhereCap(where: map<string, string>, first: bool, ghost k: nat, style: PlaceholderStyle, firstParaNo: nat)
    returns (capacity: int, sqlParaNo: nat, ghost walked: seq<string>, ghost hs: seq<nat>)
    requires firstParaNo + |where| < TWO63 && first == (k == 0)
    ensures WalkOf(where.Keys, walked) && |hs| == |walked| && LensOf(hs, style, firstParaNo)
            && WhereCount(capacity, walked, hs, k)
    ensures if style == Question then sqlParaNo <= firstParaNo else sqlParaNo == firstParaNo + |where|
  {
    capacity, sqlParaNo, walked, hs := 0, firstParaNo, [], [];
    var firstPlaceholder := first;
    var remaining := where.Keys;
    while remaining != {}
      invariant Counting(where.Keys, remaining, walked, hs, k, style, firstParaNo, sqlParaNo, firstPlaceholder)
      invariant WhereCount(capacity, walked, hs, k)
      decreases remaining
    {
      var fieldName :| fieldName in remaining;
      ghost var holeCap;
      capacity, holeCap := EqualityCap(capacity, fieldName, firstPlaceholder, style, sqlParaNo, walked, hs, k);
      CountOn(where.Keys, remaining, walked, hs, k, style, firstParaNo, sqlParaNo, firstPlaceholder, fieldName,
              holeCap);
      remaining := remaining - {fieldName};
      firstPlaceholder := false;
      walked, hs := walked + [fieldName], hs + [holeCap];
      if style != Question {
        sqlParaNo := sqlParaNo + 1;
      }
    }
  }

  /** tableQueryWhere2ConditionCap. */
  method Where2ConditionCap(fieldName: string, style: PlaceholderStyle, paraNo: nat) returns (capacity: int)
    requires paraNo < TWO63
    ensures capacity == 192 + 3 * |fieldName| + 2 * |HoleText(HoleOf(style, paraNo))|
  {
    var holeCap := SqlPlaceholderCap(style, paraNo);
    capacity := 192 + |fieldName| * 3 + holeCap * 2;
  }

  /** Adds the share of one operator condition. */
  method OperatorCap(capacity: int, fieldName: string, first: bool, style: PlaceholderStyle, sqlParaNo: nat,
                     ghost walked: seq<string>, ghost hs: seq<nat>, ghost k: nat, ghost holeCap: nat)
    returns (capacity': int)
    requires Where2Count(capacity, walked, hs, k) && first == (k + |walked| == 0) && sqlParaNo < TWO63
    requires holeCap == |HoleText(HoleOf(style, sqlParaNo))|
    ensures Where2Count(capacity', walked + [fieldName], hs + [holeCap], k)
  {
    TotalSnoc(walked, fieldName);
    SumSnoc(hs, holeCap);
    capacity' := capacity;
    if !first {
      capacity' := capacity' + |AND|;
    }
    var condCap := Where2ConditionCap(fieldName, style, sqlParaNo);
    capacity' := capacity' + condCap;
  }

  method Where2Cap(where2: map<string, string>, first: bool, ghost k: nat, style: PlaceholderStyle, firstParaNo: nat,
                   ghost no: nat)
    returns (capacity: int, ghost walked: seq<string>, ghost hs: seq<nat>)
    requires no + |where2| < TWO63 && first == (k == 0)
    requires if style == Question then firstParaNo <= no else firstParaNo == no
    ensures WalkOf(where2.Keys, walked) && |hs| == |walked| && LensOf(hs, style, no)
            && Where2Count(capacity, walked, hs, k)
  {
    capacity, walked, hs := 0, [], [];
    var sqlParaNo, firstPlaceholder := firstParaNo, first;
    var remaining := where2.Keys;
    while remaining != {}
      invariant Counting(where2.Keys, remaining, walked, hs, k, style, no, sqlParaNo, firstPlaceholder)
      invariant Where2Count(capacity, walked, hs, k)
      decreases remaining
    {
      var fieldName :| fieldName in remaining;
      ghost var holeCap := |HoleText(HoleOf(style, sqlParaNo))|;
      capacity := OperatorCap(capacity, fieldName, firstPlaceholder, style, sqlParaNo, walked, hs, k, holeCap);
      CountOn(where2.Keys, remaining, walked, hs, k, style, no, sqlParaNo, firstPlaceholder, fieldName, holeCap);
      remaining := remaining - {fieldName};
      firstPlaceholder := false;
      walked, hs := walked + [fieldName], hs + [holeCap];
      if style != Question {
        sqlParaNo := sqlParaNo + 1;
      }
    }
  }

  method BoundsCap(limit: int, offset: int) returns (capacity: int)
    requires limit < TWO31 && offset < TWO63
    ensures capacity == |BoundsText(limit, offset)|
  {
    capacity := 0;
    if limit > 0 {
      var digits := DecimalDigitCount64(limit);
      capacity := capacity + |" LIMIT "| + digits;
    }
    if offset > 0 {
      var digits := DecimalDigitCount64(offset);
      capacity := capacity + |" OFFSET "| + digits;
    }
  }

  lemma WalkSize(keys: set<string>, ws: seq<string>)
    requires WalkOf(keys, ws)
    ensures |ws| == |keys|
  {
    DistinctSize(ws);
  }

  predicate HasConditions(req: Request, p: Permission) {
    p.text != "" || req.where != map[] || req.where2 != map[]
  }

  /** The share of the permission and the equality conditions, WHERE included. */
  method FirstConditionsCap(req: Request, p: Permission, style: PlaceholderStyle)
    returns (capacity: int, firstPlaceholder: bool, sqlParaNo: nat, ghost ws: seq<string>, ghost hs: seq<nat>,
             ghost whereCap: int)
    requires |p.vals| + |req.where| < TWO31
    ensures WalkOf(req.where.Keys, ws) && |hs| == |ws| && LensOf(hs, style, 1 + |GrantArgs(p)|)
            && WhereCount(whereCap, ws, hs, |GrantConds(p)|)
    ensures firstPlaceholder == (p.text == "" && req.where == map[])
    ensures if style == Question then sqlParaNo <= 1 + |GrantArgs(p)| else sqlParaNo == 1 + |GrantArgs(p)| + |req.where|
    ensures capacity == (if firstPlaceholder then 0 else |WHERE|) + GrantLen(p) + whereCap
  {
    capacity, firstPlaceholder, sqlParaNo, ws, hs, whereCap := 0, true, 1, [], [], 0;
    if |req.where| > 0 || |p.text| > 0 {
      capacity := |WHERE|;
      if |p.text| > 0 {
        capacity := capacity + |" ( "| + |p.text| + |" ) "|;
        firstPlaceholder := false;
        sqlParaNo := sqlParaNo + |p.vals|;
      }
      var fieldsCap;
      fieldsCap, sqlParaNo, ws, hs := WhereCap(req.where, firstPlaceholder, |GrantConds(p)|, style, sqlParaNo);
      capacity := capacity + fieldsCap;
      firstPlaceholder := firstPlaceholder && |req.where| == 0;
      whereCap := fieldsCap;
    }
  }

  /** The share of the WHERE clause. */
  method ConditionsCap(req: Request, p: Permission, style: PlaceholderStyle)
    returns (capacity: int, ghost ws: seq<string>, ghost hs: seq<nat>, ghost vs: seq<string>, ghost hs2: seq<nat>)
    requires |p.vals| + |req.where| + |req.where2| < TWO31
    ensures WalkOf(req.where.Keys, ws) && |hs| == |ws| && LensOf(hs, style, 1 + |GrantArgs(p)|)
    ensures WalkOf(req.where2.Keys, vs) && |hs2| == |vs| && LensOf(hs2, style, 1 + |GrantArgs(p)| + |ws|)
    ensures capacity == (if HasConditions(req, p) then |WHERE| else 0) + ConditionsLen(p, ws, hs, vs, hs2)
  {
    var firstPlaceholder, sqlParaNo;
    ghost var whereCap;
    capacity, firstPlaceholder, sqlParaNo, ws, hs, whereCap := FirstConditionsCap(req, p, style);
    WalkSize(req.where.Keys, ws);
    vs, hs2 := [], [];
    var where2Cap := 0;
    if |req.where2| > 0 {
      if firstPlaceholder {
        capacity := capacity + |WHERE|;
      }
      where2Cap, vs, hs2 := Where2Cap(req.where2, firstPlaceholder, |GrantConds(p)| + |ws|, style, sqlParaNo,
                                      1 + |GrantArgs(p)| + |ws|);
      capacity := capacity + where2Cap;
    }
    SharesAdd(p, ws, hs, vs, hs2, whereCap, where2Cap);
  }

  lemma SharesAdd(p: Permission, ws: seq<string>, hs: seq<nat>, vs: seq<string>, hs2: seq<nat>, whereCap: int,
                  where2Cap: int)
    requires WhereCount(whereCap, ws, hs, |GrantConds(p)|) && Where2Count(where2Cap, vs, hs2, |GrantConds(p)| + |ws|)
    ensures GrantLen(p) + whereCap + where2Cap == ConditionsLen(p, ws, hs, vs, hs2)
  {
  }

  /** A statement of the request, for some orders of its maps and any operator conditions. */
  ghost predicate QueryOfRequest(q: Query, req: Request, p: Permission, dbtable: string, style: PlaceholderStyle) {
    exists ws, vs, pieces :: IsQueryFor(q, req, p, dbtable, style, ws, vs, pieces)
  }

  ghost predicate IsQueryFor(q: Query, req: Request, p: Permission, dbtable: string, style: PlaceholderStyle,
                             ws: seq<string>, vs: seq<string>, pieces: seq<Piece>)
  {
    && WalkOf(req.where.Keys, ws) && WalkOf(req.where2.Keys, vs) && |vs| == |pieces|
    && q == QueryFor(req, p, dbtable, style, ws, vs, pieces)
  }

  /** tableQueryBuildSQLCap: no statement of the request is longer than predicted. */
  method TableQueryBuildSQLCap(req: Request, p: Permission, dbtable: string, style: PlaceholderStyle)
    returns (capacity: int)
    requires |p.vals| + |req.where| + |req.where2| < TWO31 && req.limit < TWO31 && req.offset < TWO63
    ensures forall q :: QueryOfRequest(q, req, p, dbtable, style) ==> |RenderQuery(q)| <= capacity
  {
    var columnsCap := ColumnsCap(req.resultColumns);
    capacity := |" SELECT "| + columnsCap + |" FROM "| + |dbtable|;
    var condsCap, ws, hs, vs, hs2 := ConditionsCap(req, p, style);
    var boundsCap := BoundsCap(req.limit, req.offset);
    capacity := capacity + condsCap + boundsCap;
    forall q | QueryOfRequest(q, req, p, dbtable, style)
      ensures |RenderQuery(q)| <= capacity
    {
      QueryFits(q, req, p, dbtable, style, ws, hs, vs, hs2);
    }
  }

  lemma QueryFits(q: Query, req: Request, p: Permission, dbtable: string, style: PlaceholderStyle, ws: seq<string>,
                  hs: seq<nat>, vs: seq<string>, hs2: seq<nat>)
    requires QueryOfRequest(q, req, p, dbtable, style)
    requires WalkOf(req.where.Keys, ws) && |hs| == |ws| && LensOf(hs, style, 1 + |GrantArgs(p)|)
    requires WalkOf(req.where2.Keys, vs) && |hs2| == |vs| && LensOf(hs2, style, 1 + |GrantArgs(p)| + |ws|)
    ensures |RenderQuery(q)| <= |" SELECT "| + |ColumnsText(req.resultColumns)| + |" FROM "| + |dbtable|
                                + (if HasConditions(req, p) then |WHERE| else 0) + ConditionsLen(p, ws, hs, vs, hs2)
                                + |BoundsText(req.limit, req.offset)|
  {
    var ws2, vs2, pieces :| IsQueryFor(q, req, p, dbtable, style, ws2, vs2, pieces);
    ConditionsAnyOrder(p, ws, hs, vs, hs2, ws2, vs2);
    ConditionsFit(p, style, ws2, hs, vs2, pieces, hs2, 1 + |GrantArgs(p)| + |ws|);
    WalkSize(req.where.Keys, ws2);
    WalkSize(req.where2.Keys, vs2);
  }
}
