/** Taking SQL text apart: a fixed text at the front, a name up to the next separator. */
module SqlWords {
  import opened Prelude

  /** What can stand in an unquoted name; blanks and SQL's own punctuation end it. */
  predicate NameChar(c: char) {
    c !in {' ', '\n', '(', ')', ',', ';', '=', '<', '>', '?', '$', '[', ']', ':', '&', '@', '\'', '"'}
  }

  predicate PlainName(s: string) {
    s != "" && forall i :: 0 <= i < |s| ==> NameChar(s[i])
  }

  function NameLen(s: string): (n: nat)
    ensures n <= |s|
  {
    if s == "" || !NameChar(s[0]) then 0 else 1 + NameLen(s[1..])
  }

  /** A name and what follows it. */
  datatype Taken = Taken(name: string, rest: string)

  function TakeName(s: string): (r: Option<Taken>)
    ensures r.Some? ==> |r.value.rest| < |s|
  {
    var n := NameLen(s);
    if n == 0 then None else Some(Taken(s[..n], s[n..]))
  }

  predicate EndsName(rest: string) {
    rest == "" || !NameChar(rest[0])
  }

  lemma {:induction false} NameLenOf(s: string, n: nat)
    requires n <= |s| && (forall i :: 0 <= i < n ==> NameChar(s[i])) && (n == |s| || !NameChar(s[n]))
    ensures NameLen(s) == n
    decreases n
  {
    if n > 0 {
      NameLenOf(s[1..], n - 1);
    }
  }

  lemma TakeNameOf(name: string, rest: string)
    requires PlainName(name) && EndsName(rest)
    ensures TakeName(name + rest) == Some(Taken(name, rest))
  {
    var s := name + rest;
    assert rest != "" ==> s[|name|] == rest[0];
    NameLenOf(s, |name|);
    assert s[..|name|] == name && s[|name|..] == rest;
  }

  /** What follows a fixed text. */
  function Strip(word: string, s: string): (r: Option<string>)
    ensures r.Some? ==> |r.value| + |word| == |s|
  {
    if word == "" then Some(s)
    else if s != "" && s[0] == word[0] then Strip(word[1..], s[1..])
    else None
  }

  lemma {:induction false} StripOf(word: string, rest: string)
    ensures Strip(word, word + rest) == Some(rest)
    decreases word
  {
    if word == "" {
      assert word + rest == rest;
    } else {
      StripOf(word[1..], rest);
      assert (word + rest)[1..] == word[1..] + rest;
    }
  }

  lemma {:induction false} StripOther(word: string, other: string, rest: string, i: nat)
    requires i < |word| && i < |other| && word[i] != other[i]
    ensures Strip(word, other + rest) == None
    decreases i
  {
    if i > 0 {
      assert (other + rest)[1..] == other[1..] + rest;
      StripOther(word[1..], other[1..], rest, i - 1);
    }
  }

  // ---------- Putting texts together ----------

  lemma Split(whole: string, a: string, b: string, x: string)
    requires whole == a + b
    ensures whole + x == a + (b + x)
  {
  }

  lemma Regroup3(a: string, b: string, c: string, x: string)
    ensures a + b + c + x == a + (b + (c + x))
  {
  }

  lemma Regroup4(a: string, b: string, c: string, d: string, x: string)
    ensures a + b + c + d + x == a + (b + (c + (d + x)))
  {
    Regroup3(a, b, c, d + x);
  }

  lemma Regroup5(a: string, b: string, c: string, d: string, e: string, x: string)
    ensures a + b + c + d + e + x == a + (b + (c + (d + (e + x))))
  {
    Regroup4(a, b, c, d, e + x);
  }
}
