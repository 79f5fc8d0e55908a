/** PostgreSQL array literals: the parser of crud/dbscan.go and the output syntax it reads. */
module PgArray {
  import opened Prelude
  import opened Text

  // ---------- The parser ----------

  /** The parser's local variables. */
  datatype Scan = Scan(out: seq<string>, cur: string, inQuotes: bool, escape: bool)

  const START := Scan([], "", false, false)

  function Step(st: Scan, c: char): Scan {
    if st.escape then st.(cur := st.cur + [c], escape := false)
    else if c == '\\' then st.(escape := true)
    else if c == '"' then st.(inQuotes := !st.inQuotes)
    else if c == ',' && !st.inQuotes then st.(out := st.out + [st.cur], cur := "")
    else st.(cur := st.cur + [c])
  }

  function Run(st: Scan, s: string): Scan {
    if s == "" then st else Step(Run(st, s[..|s| - 1]), s[|s| - 1])
  }

  predicate IsNull(s: string) {
    Lower(s) == "null"
  }

  /** What the parser makes of one element: trimmed, with NULL in any case read as empty. */
  function Normalize(s: string): string {
    if IsNull(Trim(s)) then "" else Trim(s)
  }

  function NormalizeAll(ss: seq<string>): (r: seq<string>)
    ensures |r| == |ss| && forall i :: 0 <= i < |ss| ==> r[i] == Normalize(ss[i])
  {
    seq(|ss|, i requires 0 <= i < |ss| => Normalize(ss[i]))
  }

  function Parse(s: string): Option<seq<string>> {
    var ss := Trim(s);
    if |ss| < 2 || ss[0] != '{' || ss[|ss| - 1] != '}' then None
    else
      var inner := ss[1..|ss| - 1];
      if inner == "" then Some([])
      else
        var st := Run(START, inner);
        Some(NormalizeAll(st.out + [st.cur]))
  }

  method ParsePGArrayLiteral(s: string) returns (r: Option<seq<string>>)
    ensures r == Parse(s)
  {
    var ss := Trim(s);
    if |ss| < 2 || ss[0] != '{' || ss[|ss| - 1] != '}' {
      return None;
    }
    ss := ss[1..|ss| - 1];
    if ss == "" {
      return Some([]);
    }
    var out: seq<string>, cur, inQuotes, escape := [], "", false, false;
    for i := 0 to |ss|
      invariant Scan(out, cur, inQuotes, escape) == Run(START, ss[..i])
    {
      var c := ss[i];
      assert ss[..i + 1][..i] == ss[..i];
      if escape {
        cur := cur + [c];
        escape := false;
      } else if c == '\\' {
        escape := true;
      } else if c == '"' {
        inQuotes := !inQuotes;
      } else if c == ',' && !inQuotes {
        out := out + [cur];
        cur := "";
      } else {
        cur := cur + [c];
      }
    }
    assert ss[..|ss|] == ss;
    out := out + [cur];
    ghost var raw := out;
    for i := 0 to |out|
      invariant |out| == |raw|
      invariant forall j :: 0 <= j < i ==> out[j] == Normalize(raw[j])
      invariant forall j :: i <= j < |raw| ==> out[j] == raw[j]
    {
      out := out[i := Trim(out[i])];
      if IsNull(out[i]) {
        out := out[i := ""];
      }
    }
    assert out == NormalizeAll(raw);
    r := Some(out);
  }

  // ---------- The output syntax (section 8.15.6 of the PostgreSQL manual) ----------

  /** Backslash and double quote are escaped inside a quoted element. */
  function Escaped(s: string): string {
    if s == "" then ""
    else
      var c := s[|s| - 1];
      Escaped(s[..|s| - 1]) + (if c == '"' || c == '\\' then ['\\', c] else [c])
  }

  predicate Special(c: char) {
    c == ',' || c == '"' || c == '\\' || c == '{' || c == '}' || IsSpace(c)
  }

  predicate NeedsQuotes(s: string) {
    s == "" || IsNull(s) || exists i :: 0 <= i < |s| && Special(s[i])
  }

  /** One element as the server prints it; a null element is the bare word NULL. */
  function ElementOut(e: Option<string>): string {
    match e
    case None => "NULL"
    case Some(s) => if NeedsQuotes(s) then "\"" + Escaped(s) + "\"" else s
  }

  function ElementsOut(es: seq<Option<string>>): string {
    if es == [] then ""
    else if |es| == 1 then ElementOut(es[0])
    else ElementsOut(es[..|es| - 1]) + "," + ElementOut(es[|es| - 1])
  }

  function ArrayOut(es: seq<Option<string>>): string {
    "{" + ElementsOut(es) + "}"
  }

  function Content(e: Option<string>): string {
    if e.Some? then e.value else "NULL"
  }

  function Contents(es: seq<Option<string>>): (r: seq<string>)
    ensures |r| == |es| && forall i :: 0 <= i < |es| ==> r[i] == Content(es[i])
  {
    seq(|es|, i requires 0 <= i < |es| => Content(es[i]))
  }

  // ---------- Parsing what the server prints ----------

  lemma {:induction false} RunAppend(st: Scan, a: string, b: string)
    ensures Run(st, a + b) == Run(Run(st, a), b)
  {
    if b == "" {
      assert a + b == a;
    } else {
      assert (a + b)[..|a + b| - 1] == a + b[..|b| - 1];
      RunAppend(st, a, b[..|b| - 1]);
    }
  }

  lemma {:induction false} RunOne(st: Scan, c: char)
    ensures Run(st, [c]) == Step(st, c)
  {
    assert [c][..0] == "";
    assert Run(st, "") == st;
  }

  lemma {:induction false} RunEscaped(st: Scan, s: string)
    requires st.inQuotes && !st.escape
    ensures Run(st, Escaped(s)) == st.(cur := st.cur + s)
  {
    if s == "" {
      assert st.cur + s == st.cur;
    } else {
      var c, front := s[|s| - 1], s[..|s| - 1];
      RunEscaped(st, front);
      var st1 := st.(cur := st.cur + front);
      assert st.cur + s == st.cur + front + [c];
      if c == '"' || c == '\\' {
        assert ['\\', c] == ['\\'] + [c];
        RunAppend(st, Escaped(front), ['\\', c]);
        RunAppend(st1, ['\\'], [c]);
        RunOne(st1, '\\');
        RunOne(st1.(escape := true), c);
      } else {
        RunAppend(st, Escaped(front), [c]);
        RunOne(st1, c);
      }
    }
  }

  lemma {:induction false} RunBare(st: Scan, s: string)
    requires !st.inQuotes && !st.escape
    requires forall i :: 0 <= i < |s| ==> !Special(s[i])
    ensures Run(st, s) == st.(cur := st.cur + s)
  {
    if s == "" {
      assert st.cur + s == st.cur;
    } else {
      RunBare(st, s[..|s| - 1]);
      assert st.cur + s == st.cur + s[..|s| - 1] + [s[|s| - 1]];
    }
  }

  lemma {:induction false} RunElement(st: Scan, e: Option<string>)
    requires !st.inQuotes && !st.escape && st.cur == ""
    ensures Run(st, ElementOut(e)) == st.(cur := Content(e))
  {
    if e.Some? && NeedsQuotes(e.value) {
      var q := Escaped(e.value);
      var inside := st.(inQuotes := true);
      assert ElementOut(e) == ("\"" + q) + "\"";
      RunAppend(st, "\"" + q, "\"");
      RunAppend(st, "\"", q);
      RunOne(st, '"');
      RunEscaped(inside, e.value);
      RunOne(inside.(cur := e.value), '"');
      assert "" + e.value == e.value;
    } else {
      var s := Content(e);
      assert ElementOut(e) == s && "" + s == s;
      RunBare(st, s);
    }
  }

  lemma {:induction false} RunElements(es: seq<Option<string>>)
    requires |es| > 0
    ensures Run(START, ElementsOut(es)) == Scan(Contents(es[..|es| - 1]), Content(es[|es| - 1]), false, false)
  {
    var last := es[|es| - 1];
    if |es| == 1 {
      RunElement(START, last);
    } else {
      var front := es[..|es| - 1];
      RunElements(front);
      var st := Run(START, ElementsOut(front));
      var next := Scan(Contents(front), "", false, false);
      assert Contents(front[..|front| - 1]) + [Content(front[|front| - 1])] == Contents(front);
      RunAppend(START, ElementsOut(front) + ",", ElementOut(last));
      RunAppend(START, ElementsOut(front), ",");
      RunOne(st, ',');
      RunElement(next, last);
    }
  }

  lemma {:induction false} ElementsNonEmpty(es: seq<Option<string>>)
    requires |es| > 0
    ensures ElementsOut(es) != ""
  {
  }

  /** Parsing an array the server printed gives every element in order, normalised. */
  lemma ParseArrayOut(es: seq<Option<string>>)
    ensures Parse(ArrayOut(es)) == Some(NormalizeAll(Contents(es)))
  {
    var s := ArrayOut(es);
    assert Trimmed(s);
    assert s[1..|s| - 1] == ElementsOut(es);
    if |es| > 0 {
      assert Contents(es[..|es| - 1]) + [Content(es[|es| - 1])] == Contents(es);
      ElementsNonEmpty(es);
      RunElements(es);
    }
  }

  /** A string the parser gives back unchanged. */
  predicate Stable(s: string) {
    Trimmed(s) && !IsNull(s)
  }

  lemma NormalizeFixes(s: string)
    ensures Normalize(s) == s <==> Stable(s)
  {
    if IsNull(s) && Trimmed(s) {
      assert |Lower(s)| == 4;
    }
  }

  lemma NormalizeAllFixes(ss: seq<string>)
    ensures NormalizeAll(ss) == ss <==> forall i :: 0 <= i < |ss| ==> Stable(ss[i])
  {
    var r := NormalizeAll(ss);
    forall i | 0 <= i < |ss|
      ensures r[i] == ss[i] <==> Stable(ss[i])
    {
      NormalizeFixes(ss[i]);
    }
    if forall i :: 0 <= i < |ss| ==> Stable(ss[i]) {
      assert r == ss;
    }
  }

  function Strings(ss: seq<string>): (r: seq<Option<string>>)
    ensures |r| == |ss| && forall i :: 0 <= i < |ss| ==> r[i] == Some(ss[i])
  {
    seq(|ss|, i requires 0 <= i < |ss| => Some(ss[i]))
  }

  /** A list of strings survives the trip exactly when no element has outer whitespace or spells NULL. */
  lemma StringListRoundTrip(ss: seq<string>)
    ensures Parse(ArrayOut(Strings(ss))) == Some(ss) <==> forall i :: 0 <= i < |ss| ==> Stable(ss[i])
  {
    ParseArrayOut(Strings(ss));
    assert Contents(Strings(ss)) == ss;
    NormalizeAllFixes(ss);
  }

  // ---------- Integer arrays ----------

  function IntTexts(ns: seq<int>): (r: seq<string>)
    ensures |r| == |ns| && forall i :: 0 <= i < |ns| ==> r[i] == Itoa(ns[i])
  {
    seq(|ns|, i requires 0 <= i < |ns| => Itoa(ns[i]))
  }

  lemma ItoaStable(n: int)
    ensures Stable(Itoa(n)) && !NeedsQuotes(Itoa(n))
  {
    var s := Itoa(n);
    forall i | 0 <= i < |s|
      ensures IsDigit(s[i]) || s[i] == '-'
    {
    }
    assert Lower(s)[0] == LowerChar(s[0]) != 'n';
  }

  lemma IntArrayRoundTrip(ns: seq<int>)
    ensures Parse(ArrayOut(Strings(IntTexts(ns)))) == Some(IntTexts(ns))
  {
    forall i | 0 <= i < |ns|
      ensures Stable(IntTexts(ns)[i])
    {
      ItoaStable(ns[i]);
    }
    StringListRoundTrip(IntTexts(ns));
  }
}
