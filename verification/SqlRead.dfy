/** Conditions as SQL reads them: expressions, their text, and a reader that takes the text apart
    word by word. */
module SqlRead {
  import opened Prelude
  import opened Text
  import opened Sql
  import opened SqlWords

  // ---------- Expressions ----------

  datatype Term =
    | Name(name: string)
    | Param(hole: Hole)
    | Jsonb(hole: Hole)
    | ArrayOf(of: Term, elements: string)
    | AsJson(of: Term)
    | JsonArray(of: Term)
    | Call(fn: string, of: Term)

  /** The rows of json_each, under an alias or none. */
  datatype Source = Source(of: Term, alias: string)

  datatype From = Alone(s: Source) | Both(one: Source, another: Source)

  datatype Expr =
    | Rel(left: Term, op: string, right: Term)
    | JsonContains(doc: Term, part: Term)
    | JsonOverlaps(doc: Term, other: Term)
    | HasPath(doc: Term, key: Term)
    | Exists(negated: bool, from: From, where: Expr)
    | And(first: Expr, second: Expr)

  const OPERATORS := {"=", ">", "<", ">=", "<=", "LIKE", "&&", "@>", "?"}

  const KEYWORDS := {"WHERE", "JOIN", "ON"}

  /** Words that start a condition and can be no column. */
  const RESERVED := {"NOT", "EXISTS"}

  const TESTS := {"JSON_CONTAINS", "JSON_OVERLAPS", "JSON_CONTAINS_PATH"}

  // ---------- Text ----------

  /** The text of a term in front of other text. */
  function TermText(t: Term, rest: string): string {
    match t
    case Name(n) => n + rest
    case Param(h) => HoleText(h) + rest
    case Jsonb(h) => HoleText(h) + ("::jsonb" + rest)
    case ArrayOf(of, elements) => "ARRAY" + ("[" + TermText(of, "]::" + (elements + ("[]" + rest))))
    case AsJson(of) => "CAST" + ("(" + TermText(of, " AS JSON)" + rest))
    case JsonArray(of) => "JSON_ARRAY" + ("(" + TermText(of, ")" + rest))
    case Call(fn, of) => fn + ("(" + TermText(of, ")" + rest))
  }

  function SourceText(s: Source, rest: string): string {
    "json_each(" + TermText(s.of, ")" + (if s.alias == "" then rest else " " + (s.alias + rest)))
  }

  function ExprText(e: Expr, rest: string): string {
    match e
    case Rel(l, op, r) => TermText(l, WordText(op, TermText(r, rest)))
    case JsonContains(doc, part) => "JSON_CONTAINS" + ("(" + TermText(doc, ", " + TermText(part, ")" + rest)))
    case JsonOverlaps(doc, other) => "JSON_OVERLAPS" + ("(" + TermText(doc, ", " + TermText(other, ")" + rest)))
    case HasPath(doc, key) =>
      "JSON_CONTAINS_PATH" + ("(" + TermText(doc, ", 'one', CONCAT('$.' , " + TermText(key, "))" + rest)))
    case Exists(true, from, where) => "NOT" + (" EXISTS (SELECT 1 FROM " + FromText(from, ExprText(where, ")" + rest)))
    case Exists(false, from, where) => "EXISTS" + (" (SELECT 1 FROM " + FromText(from, ExprText(where, ")" + rest)))
    case And(l, r) => ExprText(l, " AND " + ExprText(r, rest))
  }

  /** A word between blanks. */
  function WordText(word: string, rest: string): string {
    " " + (word + (" " + rest))
  }

  function FromText(f: From, rest: string): string {
    match f
    case Alone(s) => SourceText(s, WordText("WHERE", rest))
    case Both(l, r) => SourceText(l, WordText("JOIN", SourceText(r, WordText("ON", rest))))
  }

  // ---------- Reading ----------

  datatype Read<T> = Read(it: T, rest: string)

  function ReadHole(s: string): (r: Option<Read<Hole>>)
    ensures r.Some? ==> |r.value.rest| < |s|
  {
    if Strip("?", s).Some? then Some(Read(Mark, Strip("?", s).value))
    else if Strip("$", s).Some? then
      match TakeName(Strip("$", s).value)
      case None => None
      case Some(w) => if AllDigits(w.name) then Some(Read(Numbered(NatValue(w.name)), w.rest)) else None
    else None
  }

  /** The name of an element type. */
  function ReadType(s: string): (r: Option<Taken>)
    ensures r.Some? ==> |r.value.rest| < |s|
  {
    match TakeName(s)
    case None => None
    case Some(w) =>
      if w.name == "double" && Strip(" precision", w.rest).Some? then
        Some(Taken("double precision", Strip(" precision", w.rest).value))
      else Some(w)
  }

  /** A placeholder, with or without its cast. */
  function ReadParam(s: string): (r: Option<Read<Term>>)
    ensures r.Some? ==> |r.value.rest| < |s|
  {
    match ReadHole(s)
    case None => None
    case Some(h) =>
      match Strip("::jsonb", h.rest)
      case None => Some(Read(Param(h.it), h.rest))
      case Some(rest) => Some(Read(Jsonb(h.it), rest))
  }

  function ReadTerm(s: string): (r: Option<Read<Term>>)
    ensures r.Some? ==> |r.value.rest| < |s|
    decreases |s|, 1
  {
    match TakeName(s)
    case None => ReadParam(s)
    case Some(w) =>
      match Strip("(", w.rest)
      case Some(inner) => ReadCall(w.name, inner)
      case None =>
        match Strip("[", w.rest)
        case Some(inner) => if w.name == "ARRAY" then ReadArray(inner) else None
        case None => Some(Read(Name(w.name), w.rest))
  }

  function ReadCall(fn: string, s: string): (r: Option<Read<Term>>)
    ensures r.Some? ==> |r.value.rest| < |s|
    decreases |s|, 2
  {
    match ReadTerm(s)
    case None => None
    case Some(t) => if fn == "CAST" then Close(AsJson(t.it), " AS JSON)", t.rest)
                    else if fn == "JSON_ARRAY" then Close(JsonArray(t.it), ")", t.rest)
                    else Close(Call(fn, t.it), ")", t.rest)
  }

  /** What was read, if this text ends it. */
  function Close<T>(it: T, end: string, s: string): (r: Option<Read<T>>)
    ensures r.Some? ==> |r.value.rest| <= |s| && r.value.it == it
  {
    match Strip(end, s)
    case None => None
    case Some(rest) => Some(Read(it, rest))
  }

  function ReadArray(s: string): (r: Option<Read<Term>>)
    ensures r.Some? ==> |r.value.rest| < |s|
    decreases |s|, 2
  {
    match ReadTerm(s)
    case None => None
    case Some(t) =>
      match Strip("]::", t.rest)
      case None => None
      case Some(u) => ReadElements(t.it, u)
  }

  function ReadElements(of: Term, s: string): (r: Option<Read<Term>>)
    ensures r.Some? ==> |r.value.rest| < |s|
  {
    match ReadType(s)
    case None => None
    case Some(elements) => Close(ArrayOf(of, elements.name), "[]", elements.rest)
  }

  function ReadSource(s: string): (r: Option<Read<Source>>)
    ensures r.Some? ==> |r.value.rest| < |s|
  {
    match Strip("json_each(", s)
    case None => None
    case Some(inner) =>
      match ReadTerm(inner)
      case None => None
      case Some(t) =>
        match Strip(")", t.rest)
        case None => None
        case Some(u) => Some(ReadAlias(t.it, u))
  }

  /** An alias is the next word unless that is a keyword. */
  function ReadAlias(of: Term, s: string): (r: Read<Source>)
    ensures |r.rest| <= |s|
  {
    match Strip(" ", s)
    case None => Read(Source(of, ""), s)
    case Some(u) =>
      match TakeName(u)
      case None => Read(Source(of, ""), s)
      case Some(w) => if w.name in KEYWORDS then Read(Source(of, ""), s) else Read(Source(of, w.name), w.rest)
  }

  /** This word between blanks, and what follows it. */
  function ReadWord(word: string, s: string): (r: Option<string>)
    ensures r.Some? ==> |r.value| < |s|
  {
    match Strip(" ", s)
    case None => None
    case Some(t) =>
      match TakeName(t)
      case None => None
      case Some(w) => if w.name == word then Strip(" ", w.rest) else None
  }

  /** The sources up to the condition of the subquery. */
  function ReadFrom(s: string): (r: Option<Read<From>>)
    ensures r.Some? ==> |r.value.rest| < |s|
  {
    match ReadSource(s)
    case None => None
    case Some(l) =>
      match ReadWord("WHERE", l.rest)
      case Some(rest) => Some(Read(Alone(l.it), rest))
      case None =>
        match ReadWord("JOIN", l.rest)
        case None => None
        case Some(t) => ReadSecond(l.it, t)
  }

  function ReadSecond(first: Source, s: string): (r: Option<Read<From>>)
    ensures r.Some? ==> |r.value.rest| < |s|
  {
    match ReadSource(s)
    case None => None
    case Some(second) =>
      match ReadWord("ON", second.rest)
      case None => None
      case Some(rest) => Some(Read(Both(first, second.it), rest))
  }

  /** The number of characters up to the first blank. */
  function WordLen(s: string): (n: nat)
    ensures n <= |s| && (forall i :: 0 <= i < n ==> s[i] != ' ') && (n < |s| ==> s[n] == ' ')
  {
    if s == "" || s[0] == ' ' then 0 else 1 + WordLen(s[1..])
  }

  /** An operator between blanks. */
  function ReadOperator(s: string): (r: Option<Taken>)
    ensures r.Some? ==> |r.value.rest| < |s|
  {
    match Strip(" ", s)
    case None => None
    case Some(t) =>
      var n := WordLen(t);
      if t[..n] !in OPERATORS then None
      else
        match Strip(" ", t[n..])
        case None => None
        case Some(rest) => Some(Taken(t[..n], rest))
  }

  function ReadRel(s: string): (r: Option<Read<Expr>>)
    ensures r.Some? ==> |r.value.rest| < |s|
  {
    match ReadTerm(s)
    case None => None
    case Some(l) =>
      match ReadOperator(l.rest)
      case None => None
      case Some(op) =>
        match ReadTerm(op.rest)
        case None => None
        case Some(r) => Some(Read(Rel(l.it, op.name, r.it), r.rest))
  }

  /** Two terms. */
  function ReadPair(s: string, between: string, end: string): (r: Option<Read<(Term, Term)>>)
    ensures r.Some? ==> |r.value.rest| < |s|
  {
    match ReadTerm(s)
    case None => None
    case Some(a) =>
      match Strip(between, a.rest)
      case None => None
      case Some(t) =>
        match ReadTerm(t)
        case None => None
        case Some(b) => Close((a.it, b.it), end, b.rest)
  }

  /** A function of two terms. */
  function ReadTest(fn: string, s: string): (r: Option<Read<Expr>>)
    ensures r.Some? ==> |r.value.rest| < |s|
  {
    if fn == "JSON_CONTAINS_PATH" then
      match ReadPair(s, ", 'one', CONCAT('$.' , ", "))")
      case None => None
      case Some(p) => Some(Read(HasPath(p.it.0, p.it.1), p.rest))
    else
      match ReadPair(s, ", ", ")")
      case None => None
      case Some(p) =>
        Some(Read(if fn == "JSON_CONTAINS" then JsonContains(p.it.0, p.it.1) else JsonOverlaps(p.it.0, p.it.1), p.rest))
  }

  /** One condition. */
  function ReadOne(s: string): (r: Option<Read<Expr>>)
    ensures r.Some? ==> |r.value.rest| < |s|
    decreases |s|, 0
  {
    match TakeName(s)
    case None => ReadRel(s)
    case Some(w) =>
      if w.name == "NOT" then
        match Strip(" EXISTS (SELECT 1 FROM ", w.rest)
        case None => None
        case Some(inner) => ReadExists(true, inner)
      else if w.name == "EXISTS" then
        match Strip(" (SELECT 1 FROM ", w.rest)
        case None => None
        case Some(inner) => ReadExists(false, inner)
      else if w.name in TESTS then
        match Strip("(", w.rest)
        case None => ReadRel(s)
        case Some(inner) => ReadTest(w.name, inner)
      else ReadRel(s)
  }

  function ReadExists(negated: bool, s: string): (r: Option<Read<Expr>>)
    ensures r.Some? ==> |r.value.rest| < |s|
    decreases |s|, 2
  {
    match ReadFrom(s)
    case None => None
    case Some(f) =>
      match ReadExpr(f.rest)
      case None => None
      case Some(e) => Close(Exists(negated, f.it, e.it), ")", e.rest)
  }

  /** Conditions with AND between them. */
  function ReadExpr(s: string): (r: Option<Read<Expr>>)
    ensures r.Some? ==> |r.value.rest| < |s|
    decreases |s|, 1
  {
    match ReadOne(s)
    case None => None
    case Some(e) =>
      match Strip(" AND ", e.rest)
      case None => Some(e)
      case Some(t) =>
        match ReadExpr(t)
        case None => None
        case Some(more) => Some(Read(And(e.it, more.it), more.rest))
  }

  // ---------- What is read is what was written ----------

  predicate PlainTerm(t: Term) {
    match t
    case Name(n) => PlainName(n)
    case Param(_) => true
    case Jsonb(_) => true
    case ArrayOf(of, elements) => PlainTerm(of) && (elements == "double precision" || PlainName(elements))
    case AsJson(of) => PlainTerm(of)
    case JsonArray(of) => PlainTerm(of)
    case Call(fn, of) => PlainName(fn) && fn != "CAST" && fn != "JSON_ARRAY" && PlainTerm(of)
  }

  predicate PlainSource(s: Source) {
    PlainTerm(s.of) && (s.alias == "" || (PlainName(s.alias) && s.alias !in KEYWORDS))
  }

  predicate PlainFrom(f: From) {
    match f
    case Alone(s) => PlainSource(s)
    case Both(l, r) => PlainSource(l) && PlainSource(r)
  }

  /** Names need no quotes, a comparison starts with a column or a function of one, and ANDs stand
      one behind the other. */
  predicate PlainExpr(e: Expr) {
    match e
    case Rel(l, op, r) =>
      && (l.Name? || (l.Call? && l.fn !in TESTS)) && (if l.Name? then l.name else l.fn) !in RESERVED
      && PlainTerm(l) && PlainTerm(r) && op in OPERATORS
    case JsonContains(doc, part) => PlainTerm(doc) && PlainTerm(part)
    case JsonOverlaps(doc, other) => PlainTerm(doc) && PlainTerm(other)
    case HasPath(doc, key) => PlainTerm(doc) && PlainTerm(key)
    case Exists(_, from, where) => PlainFrom(from) && PlainExpr(where)
    case And(l, r) => !l.And? && PlainExpr(l) && PlainExpr(r)
  }

  /** A term ends here. */
  predicate EndsTerm(rest: string) {
    rest == "" || rest[0] in {' ', ')', ',', ']'}
  }

  lemma {:induction false} DigitsPlain(n: nat)
    ensures PlainName(Digits(n)) && Itoa(n) == Digits(n) && NatValue(Digits(n)) == n
  {
    DigitsValue(n);
    forall i | 0 <= i < |Digits(n)|
      ensures NameChar(Digits(n)[i])
    {
      assert IsDigit(Digits(n)[i]);
    }
  }

  lemma HoleRead(h: Hole, rest: string)
    requires EndsName(rest)
    ensures TakeName(HoleText(h) + rest) == None && ReadHole(HoleText(h) + rest) == Some(Read(h, rest))
  {
    match h
    case Mark => StripOf("?", rest);
    case Numbered(n) =>
      DigitsPlain(n);
      assert HoleText(h) + rest == "$" + (Digits(n) + rest);
      StripOf("$", Digits(n) + rest);
      TakeNameOf(Digits(n), rest);
  }

  lemma {:induction false} ParamRead(h: Hole, rest: string)
    requires EndsTerm(rest)
    ensures ReadTerm(HoleText(h) + rest) == Some(Read(Param(h), rest))
  {
    HoleRead(h, rest);
  }

  lemma {:induction false} JsonbRead(h: Hole, rest: string)
    ensures ReadTerm(HoleText(h) + ("::jsonb" + rest)) == Some(Read(Jsonb(h), rest))
  {
    HoleRead(h, "::jsonb" + rest);
    StripOf("::jsonb", rest);
  }

  lemma {:induction false} NameRead(n: string, rest: string)
    requires PlainName(n) && EndsTerm(rest)
    ensures ReadTerm(n + rest) == Some(Read(Name(n), rest))
  {
    TakeNameOf(n, rest);
  }

  lemma TypeRead(elements: string, rest: string)
    requires elements == "double precision" || PlainName(elements)
    ensures ReadType(elements + ("[]" + rest)) == Some(Taken(elements, "[]" + rest))
  {
    var tail := "[]" + rest;
    if elements == "double precision" {
      assert elements + tail == "double" + (" precision" + tail);
      TakeNameOf("double", " precision" + tail);
      StripOf(" precision", tail);
    } else {
      TakeNameOf(elements, tail);
      StripOther(" precision", "[]", rest, 0);
    }
  }

  lemma ElementsRead(of: Term, elements: string, rest: string)
    requires elements == "double precision" || PlainName(elements)
    ensures ReadElements(of, elements + ("[]" + rest)) == Some(Read(ArrayOf(of, elements), rest))
  {
    TypeRead(elements, rest);
    StripOf("[]", rest);
  }

  lemma {:induction false} ArrayRead(of: Term, elements: string, rest: string)
    requires elements == "double precision" || PlainName(elements)
    requires var inner := "]::" + (elements + ("[]" + rest)); ReadTerm(TermText(of, inner)) == Some(Read(of, inner))
    ensures var inner := "]::" + (elements + ("[]" + rest));
            ReadArray(TermText(of, inner)) == Some(Read(ArrayOf(of, elements), rest))
  {
    StripOf("]::", elements + ("[]" + rest));
    ElementsRead(of, elements, rest);
  }

  /** What stands behind ARRAY is an array. */
  lemma {:induction false} BracketRead(inner: string)
    ensures ReadTerm("ARRAY" + ("[" + inner)) == ReadArray(inner)
  {
    TakeNameOf("ARRAY", "[" + inner);
    StripOf("[", inner);
  }

  /** What stands behind a name and a parenthesis is a call. */
  lemma {:induction false} ParenthesisRead(fn: string, inner: string)
    requires PlainName(fn)
    ensures ReadTerm(fn + ("(" + inner)) == ReadCall(fn, inner)
  {
    TakeNameOf(fn, "(" + inner);
    StripOf("(", inner);
  }

  lemma {:induction false} AsJsonRead(of: Term, rest: string)
    requires var tail := " AS JSON)" + rest; ReadTerm(TermText(of, tail)) == Some(Read(of, tail))
    ensures ReadTerm(TermText(AsJson(of), rest)) == Some(Read(AsJson(of), rest))
  {
    StripOf(" AS JSON)", rest);
    ParenthesisRead("CAST", TermText(of, " AS JSON)" + rest));
  }

  lemma {:induction false} CallRead(fn: string, of: Term, rest: string)
    requires PlainName(fn) && fn != "CAST"
    requires ReadTerm(TermText(of, ")" + rest)) == Some(Read(of, ")" + rest))
    ensures ReadTerm(fn + ("(" + TermText(of, ")" + rest)))
         == Some(Read(if fn == "JSON_ARRAY" then JsonArray(of) else Call(fn, of), rest))
  {
    StripOf(")", rest);
    ParenthesisRead(fn, TermText(of, ")" + rest));
  }

  lemma {:induction false} TermRead(t: Term, rest: string)
    requires PlainTerm(t) && EndsTerm(rest)
    ensures ReadTerm(TermText(t, rest)) == Some(Read(t, rest))
  {
    match t
    case Name(n) => NameRead(n, rest);
    case Param(h) => ParamRead(h, rest);
    case Jsonb(h) => JsonbRead(h, rest);
    case ArrayOf(of, elements) =>
      var inner := "]::" + (elements + ("[]" + rest));
      TermRead(of, inner);
      ArrayRead(of, elements, rest);
      BracketRead(TermText(of, inner));
    case AsJson(of) =>
      TermRead(of, " AS JSON)" + rest);
      AsJsonRead(of, rest);
    case JsonArray(of) =>
      TermRead(of, ")" + rest);
      CallRead("JSON_ARRAY", of, rest);
    case Call(fn, of) =>
      TermRead(of, ")" + rest);
      CallRead(fn, of, rest);
  }

  lemma WordRead(word: string, rest: string)
    requires PlainName(word)
    ensures ReadWord(word, WordText(word, rest)) == Some(rest)
    ensures forall other :: other != word ==> ReadWord(other, WordText(word, rest)) == None
  {
    StripOf(" ", word + (" " + rest));
    TakeNameOf(word, " " + rest);
    StripOf(" ", rest);
  }

  lemma AliasRead(of: Term, alias: string, word: string, rest: string)
    requires alias == "" || (PlainName(alias) && alias !in KEYWORDS)
    requires word in KEYWORDS
    ensures var tail := WordText(word, rest);
            ReadAlias(of, if alias == "" then tail else " " + (alias + tail)) == Read(Source(of, alias), tail)
  {
    var tail := WordText(word, rest);
    if alias == "" {
      StripOf(" ", word + (" " + rest));
      TakeNameOf(word, " " + rest);
    } else {
      StripOf(" ", alias + tail);
      TakeNameOf(alias, tail);
    }
  }

  lemma SourceRead(s: Source, word: string, rest: string)
    requires PlainSource(s) && word in KEYWORDS
    ensures ReadSource(SourceText(s, WordText(word, rest))) == Some(Read(s, WordText(word, rest)))
  {
    var tail := WordText(word, rest);
    var after := if s.alias == "" then tail else " " + (s.alias + tail);
    StripOf("json_each(", TermText(s.of, ")" + after));
    TermRead(s.of, ")" + after);
    StripOf(")", after);
    AliasRead(s.of, s.alias, word, rest);
  }

  lemma AloneRead(s: Source, rest: string)
    requires PlainSource(s)
    ensures ReadFrom(FromText(Alone(s), rest)) == Some(Read(Alone(s), rest))
  {
    SourceRead(s, "WHERE", rest);
    WordRead("WHERE", rest);
  }

  lemma SecondRead(first: Source, second: Source, rest: string)
    requires PlainSource(second)
    ensures ReadSecond(first, SourceText(second, WordText("ON", rest))) == Some(Read(Both(first, second), rest))
  {
    SourceRead(second, "ON", rest);
    WordRead("ON", rest);
  }

  lemma BothRead(l: Source, r: Source, rest: string)
    requires PlainSource(l) && PlainSource(r)
    ensures ReadFrom(FromText(Both(l, r), rest)) == Some(Read(Both(l, r), rest))
  {
    var tail := SourceText(r, WordText("ON", rest));
    SourceRead(l, "JOIN", tail);
    WordRead("JOIN", tail);
    SecondRead(l, r, rest);
  }

  lemma FromRead(f: From, rest: string)
    requires PlainFrom(f)
    ensures ReadFrom(FromText(f, rest)) == Some(Read(f, rest))
  {
    match f
    case Alone(s) => AloneRead(s, rest);
    case Both(l, r) => BothRead(l, r, rest);
  }

  lemma OperatorRead(op: string, rest: string)
    requires op in OPERATORS
    ensures ReadOperator(WordText(op, rest)) == Some(Taken(op, rest))
  {
    var t := op + (" " + rest);
    StripOf(" ", t);
    assert forall i :: 0 <= i < |op| ==> op[i] != ' ';
    assert t[|op|] == ' ' && forall i :: 0 <= i < |op| ==> t[i] == op[i];
    assert WordLen(t) == |op|;
    assert t[..|op|] == op && t[|op|..] == " " + rest;
    StripOf(" ", rest);
  }

  lemma {:induction false} RelRead(l: Term, op: string, r: Term, rest: string)
    requires PlainTerm(l) && PlainTerm(r) && op in OPERATORS && EndsTerm(rest)
    ensures ReadRel(ExprText(Rel(l, op, r), rest)) == Some(Read(Rel(l, op, r), rest))
  {
    TermRead(l, WordText(op, TermText(r, rest)));
    OperatorRead(op, TermText(r, rest));
    TermRead(r, rest);
  }

  /** A condition that starts with another word is a comparison. */
  lemma {:induction false} OpensRel(word: string, tail: string)
    requires PlainName(word) && EndsName(tail) && word !in RESERVED && (word in TESTS ==> Strip("(", tail) == None)
    ensures ReadOne(word + tail) == ReadRel(word + tail)
  {
    TakeNameOf(word, tail);
  }

  lemma {:induction false} OneRel(l: Term, op: string, r: Term, rest: string)
    requires PlainExpr(Rel(l, op, r)) && EndsTerm(rest)
    ensures ReadOne(ExprText(Rel(l, op, r), rest)) == Some(Read(Rel(l, op, r), rest))
  {
    var tail := WordText(op, TermText(r, rest));
    RelRead(l, op, r, rest);
    if l.Name? {
      OpensRel(l.name, tail);
    } else {
      OpensRel(l.fn, "(" + TermText(l.of, ")" + tail));
    }
  }

  lemma {:induction false} PairRead(a: Term, b: Term, between: string, end: string, rest: string)
    requires PlainTerm(a) && PlainTerm(b) && between != "" && between[0] == ',' && end != "" && end[0] == ')'
    ensures ReadPair(TermText(a, between + TermText(b, end + rest)), between, end) == Some(Read((a, b), rest))
  {
    TermRead(a, between + TermText(b, end + rest));
    StripOf(between, TermText(b, end + rest));
    TermRead(b, end + rest);
    StripOf(end, rest);
  }

  /** A function of two terms. */
  lemma {:induction false} OneTest(fn: string, inner: string)
    requires fn in TESTS && PlainName(fn) && fn !in RESERVED
    ensures ReadOne(fn + ("(" + inner)) == ReadTest(fn, inner)
  {
    TakeNameOf(fn, "(" + inner);
    StripOf("(", inner);
  }

  lemma TestIsPlain(fn: string)
    requires fn in TESTS
    ensures PlainName(fn) && fn !in RESERVED
  {
  }

  lemma {:induction false} ContainsRead(doc: Term, part: Term, rest: string)
    requires PlainTerm(doc) && PlainTerm(part)
    ensures ReadOne(ExprText(JsonContains(doc, part), rest)) == Some(Read(JsonContains(doc, part), rest))
  {
    PairRead(doc, part, ", ", ")", rest);
    TestIsPlain("JSON_CONTAINS");
    OneTest("JSON_CONTAINS", TermText(doc, ", " + TermText(part, ")" + rest)));
  }

  lemma {:induction false} OverlapsRead(doc: Term, other: Term, rest: string)
    requires PlainTerm(doc) && PlainTerm(other)
    ensures ReadOne(ExprText(JsonOverlaps(doc, other), rest)) == Some(Read(JsonOverlaps(doc, other), rest))
  {
    PairRead(doc, other, ", ", ")", rest);
    TestIsPlain("JSON_OVERLAPS");
    OneTest("JSON_OVERLAPS", TermText(doc, ", " + TermText(other, ")" + rest)));
  }

  lemma {:induction false} PathRead(doc: Term, key: Term, rest: string)
    requires PlainTerm(doc) && PlainTerm(key)
    ensures ReadOne(ExprText(HasPath(doc, key), rest)) == Some(Read(HasPath(doc, key), rest))
  {
    PairRead(doc, key, ", 'one', CONCAT('$.' , ", "))", rest);
    TestIsPlain("JSON_CONTAINS_PATH");
    OneTest("JSON_CONTAINS_PATH", TermText(doc, ", 'one', CONCAT('$.' , " + TermText(key, "))" + rest)));
  }

  lemma {:induction false} ExistsRead(negated: bool, from: From, where: Expr, rest: string)
    requires PlainFrom(from) && ReadExpr(ExprText(where, ")" + rest)) == Some(Read(where, ")" + rest))
    ensures ReadExists(negated, FromText(from, ExprText(where, ")" + rest)))
         == Some(Read(Exists(negated, from, where), rest))
  {
    FromRead(from, ExprText(where, ")" + rest));
    StripOf(")", rest);
  }

  lemma {:induction false} OpensNotExists(inner: string)
    ensures ReadOne("NOT" + (" EXISTS (SELECT 1 FROM " + inner)) == ReadExists(true, inner)
  {
    TakeNameOf("NOT", " EXISTS (SELECT 1 FROM " + inner);
    StripOf(" EXISTS (SELECT 1 FROM ", inner);
  }

  lemma {:induction false} OpensExists(inner: string)
    ensures ReadOne("EXISTS" + (" (SELECT 1 FROM " + inner)) == ReadExists(false, inner)
  {
    TakeNameOf("EXISTS", " (SELECT 1 FROM " + inner);
    StripOf(" (SELECT 1 FROM ", inner);
  }

  /** The conditions end here. */
  predicate EndsExpr(rest: string) {
    EndsTerm(rest) && Strip(" AND ", rest) == None
  }

  lemma {:induction false} OneRead(e: Expr, rest: string)
    requires PlainExpr(e) && !e.And? && EndsTerm(rest)
    ensures ReadOne(ExprText(e, rest)) == Some(Read(e, rest))
    decreases e, 0
  {
    match e
    case Rel(l, op, r) => OneRel(l, op, r, rest);
    case JsonContains(doc, part) => ContainsRead(doc, part, rest);
    case JsonOverlaps(doc, other) => OverlapsRead(doc, other, rest);
    case HasPath(doc, key) => PathRead(doc, key, rest);
    case Exists(negated, from, where) =>
      ExprRead(where, ")" + rest);
      ExistsRead(negated, from, where, rest);
      if negated {
        OpensNotExists(FromText(from, ExprText(where, ")" + rest)));
      } else {
        OpensExists(FromText(from, ExprText(where, ")" + rest)));
      }
  }

  /** The text of conditions is read as these conditions. */
  lemma {:induction false} ExprRead(e: Expr, rest: string)
    requires PlainExpr(e) && EndsExpr(rest)
    ensures ReadExpr(ExprText(e, rest)) == Some(Read(e, rest))
    decreases e, 1
  {
    if e.And? {
      var tail := ExprText(e.second, rest);
      OneRead(e.first, " AND " + tail);
      StripOf(" AND ", tail);
      ExprRead(e.second, rest);
    } else {
      OneRead(e, rest);
    }
  }
}
