/** Length of placeholders (crud/sqlbuilder.go). */
module SqlBuilder {
  import opened Sqldb
  import opened Text
  import opened Sql

  /** The number of decimal digits, sign not counted; negating the least int64 leaves it negative. */
  method DecimalDigitCount64(n: int) returns (digits: int)
    requires -TWO63 <= n < TWO63
    ensures n >= 0 ==> digits == |Itoa(n)|
    ensures -TWO63 < n < 0 ==> digits == |Itoa(n)| - 1
    ensures n == -TWO63 ==> digits == 1
  {
    var m := n;
    if m < 0 {
      m := if m == -TWO63 then m else -m;
    }
    digits := 1;
    ghost var whole := m;
    while m >= 10
      invariant m >= 0 ==> whole >= 0 && digits - 1 + |Digits(m)| == |Digits(whole)|
      invariant m < 0 ==> m == whole && digits == 1
      decreases m
    {
      m := m / 10;
      digits := digits + 1;
    }
  }

  function HoleOf(style: PlaceholderStyle, no: nat): Hole {
    if style == Question then Mark else Hole.Numbered(no)
  }

  method SqlPlaceholderCap(style: PlaceholderStyle, paraNo: nat) returns (c: int)
    requires paraNo < TWO63
    ensures c == |HoleText(HoleOf(style, paraNo))|
  {
    if style == Question {
      return 1;
    }
    var digits := DecimalDigitCount64(paraNo);
    c := 1 + digits;
  }

  // ---------- Lengths of runs of placeholders ----------

  function Sum(ns: seq<nat>): nat {
    if ns == [] then 0 else Sum(ns[..|ns| - 1]) + ns[|ns| - 1]
  }

  lemma {:induction false} SumSnoc(ns: seq<nat>, n: nat)
    ensures Sum(ns + [n]) == Sum(ns) + n
  {
    assert (ns + [n])[..|ns|] == ns;
  }

  /** hs are the lengths of the placeholders numbered from no. */
  ghost predicate LensOf(hs: seq<nat>, style: PlaceholderStyle, no: nat) {
    forall i :: 0 <= i < |hs| ==> hs[i] == |HoleText(HoleOf(style, no + i))|
  }

  /** One placeholder more; with question marks the running number stays, and does not matter. */
  lemma LensSnoc(hs: seq<nat>, style: PlaceholderStyle, no: nat, sqlParaNo: nat)
    requires LensOf(hs, style, no) && (style == Dollar ==> sqlParaNo == no + |hs|)
    ensures LensOf(hs + [|HoleText(HoleOf(style, sqlParaNo))|], style, no)
  {
    assert HoleOf(style, sqlParaNo) == HoleOf(style, no + |hs|);
  }

  function TotalLen(cols: seq<string>): nat {
    if cols == [] then 0 else TotalLen(cols[..|cols| - 1]) + |cols[|cols| - 1]|
  }

  lemma {:induction false} TotalSnoc(cols: seq<string>, c: string)
    ensures TotalLen(cols + [c]) == TotalLen(cols) + |c|
  {
    assert (cols + [c])[..|cols|] == cols;
  }
}
