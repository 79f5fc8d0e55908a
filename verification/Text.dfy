/** Strings as the Go runtime handles them: decimal text, trimming, ASCII folding. */
module Text {
  import opened Prelude

  // ---------- Decimal text ----------

  predicate IsDigit(c: char) {
    '0' <= c <= '9'
  }

  predicate AllDigits(s: string) {
    forall i :: 0 <= i < |s| ==> IsDigit(s[i])
  }

  function DigitChar(d: nat): (c: char)
    requires d < 10
    ensures IsDigit(c)
  {
    '0' + d as char
  }

  /** The decimal digits of a natural number, without leading zeros. */
  function Digits(n: nat): (s: string)
    ensures |s| > 0 && AllDigits(s)
    ensures |s| > 1 ==> s[0] != '0'
  {
    if n < 10 then [DigitChar(n)] else Digits(n / 10) + [DigitChar(n % 10)]
  }

  /** strconv.Itoa, and fmt.Sprint of an integer. */
  function Itoa(n: int): string {
    if n < 0 then "-" + Digits(-n) else Digits(n)
  }

  function NatValue(s: string): nat
    requires AllDigits(s)
  {
    if s == "" then 0 else NatValue(s[..|s| - 1]) * 10 + (s[|s| - 1] - '0') as int
  }

  lemma {:induction false} DigitsValue(n: nat)
    ensures NatValue(Digits(n)) == n
  {
    if n < 10 {
      assert Digits(n) == [DigitChar(n)];
      assert NatValue("") == 0;
    } else {
      var s := Digits(n);
      assert s[..|s| - 1] == Digits(n / 10);
      DigitsValue(n / 10);
    }
  }

  const TWO31 := 0x8000_0000
  const TWO32 := 0x1_0000_0000
  const TWO63 := 0x8000_0000_0000_0000
  const TWO64 := 0x1_0000_0000_0000_0000

  /** strconv.ParseUint in base 10: digits only, at least one, below `limit`. */
  function ParseUint(s: string, limit: nat): Option<nat> {
    if s == "" || !AllDigits(s) then None
    else
      var n := NatValue(s);
      if n < limit then Some(n) else None
  }

  /** strconv.ParseInt in base 10: an optional sign, then digits; `limit` is 2 to the power bits-1. */
  function ParseInt(s: string, limit: nat): Option<int> {
    if s == "" then None
    else
      var neg := s[0] == '-';
      var body := if neg || s[0] == '+' then s[1..] else s;
      if body == "" || !AllDigits(body) then None
      else
        var n: int := if neg then -(NatValue(body) as int) else NatValue(body);
        if -(limit as int) <= n < limit then Some(n) else None
  }

  lemma ParseItoa(n: int, limit: nat)
    requires -(limit as int) <= n < limit
    ensures ParseInt(Itoa(n), limit) == Some(n)
  {
    if n < 0 {
      DigitsValue(-n);
      assert Itoa(n)[1..] == Digits(-n);
    } else {
      DigitsValue(n);
      assert IsDigit(Digits(n)[0]);
    }
  }

  lemma ParseUintDigits(n: nat, limit: nat)
    requires n < limit
    ensures ParseUint(Itoa(n), limit) == Some(n)
  {
    DigitsValue(n);
  }

  lemma ItoaInjective(a: int, b: int)
    requires Itoa(a) == Itoa(b)
    ensures a == b
  {
    var limit := 1 + (if a < 0 then -a else a) + (if b < 0 then -b else b);
    ParseItoa(a, limit);
    ParseItoa(b, limit);
  }

  // ---------- What a numeral denotes ----------

  /** The text is a decimal numeral of the number, without a sign. */
  predicate Natural(s: string, n: nat) {
    s != "" && AllDigits(s) && NatValue(s) == n
  }

  /** The text is a decimal numeral of the number, with or without a sign. */
  predicate Numeral(s: string, n: int) {
    || (n >= 0 && Natural(s, n))
    || (n >= 0 && s != "" && s[0] == '+' && Natural(s[1..], n))
    || (n <= 0 && s != "" && s[0] == '-' && Natural(s[1..], -n))
  }

  lemma ItoaIsNumeral(n: int)
    ensures Numeral(Itoa(n), n)
  {
    if n < 0 {
      DigitsValue(-n);
      assert Itoa(n)[1..] == Digits(-n);
    } else {
      DigitsValue(n);
    }
  }

  lemma ParseUintMeans(s: string, limit: nat, n: nat)
    ensures ParseUint(s, limit) == Some(n) <==> Natural(s, n) && n < limit
  {
  }

  lemma ParseIntMeans(s: string, limit: nat, n: int)
    ensures ParseInt(s, limit) == Some(n) <==> Numeral(s, n) && -(limit as int) <= n < limit
  {
    if s != "" {
      assert s[0] == '-' || s[0] == '+' ==> !IsDigit(s[0]);
    }
  }

  lemma NumeralUnique(s: string, a: int, b: int)
    requires Numeral(s, a) && Numeral(s, b)
    ensures a == b
  {
    var limit := 1 + (if a < 0 then -a else a) + (if b < 0 then -b else b);
    ParseIntMeans(s, limit, a);
    ParseIntMeans(s, limit, b);
  }

  /** A character no numeral has. */
  predicate Foreign(c: char) {
    !IsDigit(c) && c != '+' && c != '-' && !IsSpace(c)
  }

  lemma ForeignIsNoNumeral(s: string, c: char, n: int)
    requires c in s && Foreign(c)
    ensures !Numeral(Trim(s), n)
  {
    TrimKeeps(s, c);
    var t := Trim(s);
    var i :| 0 <= i < |t| && t[i] == c;
    assert !AllDigits(t);
    if i > 0 {
      assert t[1..][i - 1] == c;
    }
  }

  // ---------- Trimming and case ----------

  /** unicode.IsSpace. */
  predicate IsSpace(c: char) {
    || '\t' <= c <= '\r' || c == ' ' || c == '\U{85}' || c == '\U{A0}' || c == '\U{1680}'
    || '\U{2000}' <= c <= '\U{200A}' || c == '\U{2028}' || c == '\U{2029}' || c == '\U{202F}'
    || c == '\U{205F}' || c == '\U{3000}'
  }

  /** No whitespace at either end. */
  predicate Trimmed(s: string) {
    s == "" || (!IsSpace(s[0]) && !IsSpace(s[|s| - 1]))
  }

  function InkStart(s: string, i: nat): (j: nat)
    requires i <= |s|
    ensures i <= j <= |s| && forall k :: i <= k < j ==> IsSpace(s[k])
    ensures j < |s| ==> !IsSpace(s[j])
    decreases |s| - i
  {
    if i < |s| && IsSpace(s[i]) then InkStart(s, i + 1) else i
  }

  function InkEnd(s: string, i: nat, j: nat): (e: nat)
    requires i <= j <= |s|
    ensures i <= e <= j && forall k :: e <= k < j ==> IsSpace(s[k])
    ensures i < e ==> !IsSpace(s[e - 1])
    decreases j
  {
    if i < j && IsSpace(s[j - 1]) then InkEnd(s, i, j - 1) else j
  }

  /** strings.TrimSpace: cuts a stretch of whitespace off each end and nothing else. */
  function Trim(s: string): (r: string)
    ensures Trimmed(r)
    ensures Trimmed(s) ==> r == s
  {
    var i := InkStart(s, 0);
    s[i..InkEnd(s, i, |s|)]
  }

  lemma TrimKeeps(s: string, c: char)
    requires c in s && !IsSpace(c)
    ensures c in Trim(s)
  {
    var k :| 0 <= k < |s| && s[k] == c;
    var i := InkStart(s, 0);
    var e := InkEnd(s, i, |s|);
    assert i <= k < e;
    assert s[i..e][k - i] == c;
  }

  function LowerChar(c: char): char {
    if 'A' <= c <= 'Z' then c - 'A' + 'a' else c
  }

  /** ASCII lower case. */
  function Lower(s: string): (r: string)
    ensures |r| == |s| && forall i :: 0 <= i < |s| ==> r[i] == LowerChar(s[i])
  {
    seq(|s|, i requires 0 <= i < |s| => LowerChar(s[i]))
  }

  lemma LowerFixes(s: string)
    requires forall i :: 0 <= i < |s| ==> !('A' <= s[i] <= 'Z')
    ensures Lower(s) == s
  {
  }

  function Join(parts: seq<string>, sep: string): string {
    if parts == [] then ""
    else if |parts| == 1 then parts[0]
    else Join(parts[..|parts| - 1], sep) + sep + parts[|parts| - 1]
  }

  lemma {:induction false} JoinSnoc(parts: seq<string>, part: string, sep: string)
    ensures Join(parts + [part], sep) == Join(parts, sep) + (if parts != [] then sep else "") + part
  {
    assert (parts + [part])[..|parts|] == parts;
  }

  lemma {:induction false} JoinOne(part: string, sep: string)
    ensures Join([part], sep) == part
  {
    JoinSnoc([], part, sep);
    assert [] + [part] == [part];
  }

  lemma {:induction false} JoinFront(names: seq<string>, sep: string)
    requires |names| > 1
    ensures Join(names, sep) == names[0] + sep + Join(names[1..], sep)
  {
    var n := |names| - 1;
    assert names[..n] + [names[n]] == names && names[1..][..n - 1] + [names[n]] == names[1..];
    JoinSnoc(names[..n], names[n], sep);
    JoinSnoc(names[1..][..n - 1], names[n], sep);
    if n > 1 {
      JoinFront(names[..n], sep);
      assert names[..n][1..] == names[1..][..n - 1];
    } else {
      JoinSnoc([], names[0], sep);
      assert names[..n] == [] + [names[0]] && names[1..][..n - 1] == [];
    }
  }
}
