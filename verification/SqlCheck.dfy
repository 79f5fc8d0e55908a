/** The expression and identifier guards of crud/sqlcheck.go. */
module SqlCheck {
  import opened Text

  /** unicode.IsLetter and unicode.IsDigit outside ASCII, taken as parameters. */
  datatype Unicode = Unicode(letter: char -> bool, digit: char -> bool)

  predicate IsAscii(c: char) {
    c < '\U{80}'
  }

  predicate AsciiLetter(c: char) {
    'A' <= c <= 'Z' || 'a' <= c <= 'z'
  }

  predicate Operator(c: char) {
    || c == '(' || c == ')' || c == '+' || c == '-' || c == '*' || c == '/' || c == '%' || c == ':'
    || c == '[' || c == ']' || c == '>' || c == '<' || c == ',' || c == '=' || c == '\''
  }

  // ---------- What an acceptable expression is ----------

  predicate Allowed(c: char, u: Unicode) {
    if IsAscii(c) then AsciiLetter(c) || c == '_' || c == '.' || c == ' ' || IsDigit(c) || Operator(c)
    else u.letter(c) || u.digit(c)
  }

  predicate WordChar(c: char, u: Unicode) {
    if IsAscii(c) then AsciiLetter(c) || c == '_' else u.letter(c)
  }

  predicate OnlyAllowed(s: string, u: Unicode) {
    forall i :: 0 <= i < |s| ==> Allowed(s[i], u)
  }

  predicate PairAt(s: string, i: int, a: char, b: char) {
    0 < i < |s| && s[i - 1] == a && s[i] == b
  }

  /** The two characters stand nowhere side by side. */
  predicate NoPair(s: string, a: char, b: char) {
    forall i :: 0 <= i < |s| ==> !PairAt(s, i, a, b)
  }

  /** Opening minus closing brackets. */
  function Depth(s: string, open: char, close: char): int {
    if s == "" then 0
    else
      var c := s[|s| - 1];
      Depth(s[..|s| - 1], open, close) + (if c == open then 1 else if c == close then -1 else 0)
  }

  predicate NeverNegative(s: string, open: char, close: char) {
    forall k :: 0 <= k <= |s| ==> Depth(s[..k], open, close) >= 0
  }

  predicate Balanced(s: string, open: char, close: char) {
    Depth(s, open, close) == 0 && NeverNegative(s, open, close)
  }

  /** A stretch of word characters that cannot be extended on either side. */
  predicate MaximalWord(s: string, i: int, j: int, u: Unicode) {
    && 0 <= i < j <= |s|
    && (forall k :: i <= k < j ==> WordChar(s[k], u))
    && (i == 0 || !WordChar(s[i - 1], u))
    && (j == |s| || !WordChar(s[j], u))
  }

  predicate Keyword(w: string) {
    || w == "or" || w == "and" || w == "from" || w == "join" || w == "drop" || w == "exec"
    || w == "union" || w == "alter" || w == "grant" || w == "sleep"
    || w == "select" || w == "update" || w == "delete" || w == "insert" || w == "revoke"
    || w == "execute" || w == "prepare" || w == "declare"
    || w == "truncate" || w == "pg_sleep" || w == "benchmark"
  }

  ghost predicate NoKeyword(s: string, u: Unicode) {
    forall i, j :: MaximalWord(s, i, j, u) ==> !Keyword(Lower(s[i..j]))
  }

  ghost predicate Acceptable(s: string, u: Unicode) {
    s == "*"
    || (&& s != ""
        && OnlyAllowed(s, u)
        && NoPair(s, '-', '-') && NoPair(s, '/', '*')
        && Balanced(s, '(', ')') && Balanced(s, '[', ']')
        && NoKeyword(s, u))
  }

  // ---------- The one-pass scanner ----------

  method AsciiEqualFoldRange(s: string, start: nat, lower: string) returns (r: bool)
    requires start + |lower| <= |s|
    ensures r <==> Lower(s[start..start + |lower|]) == lower
  {
    ghost var range := s[start..start + |lower|];
    for i := 0 to |lower|
      invariant forall k :: 0 <= k < i ==> LowerChar(s[start + k]) == lower[k]
    {
      var c := s[start + i];
      if 'A' <= c <= 'Z' {
        c := c - 'A' + 'a';
      }
      if c != lower[i] {
        assert Lower(range)[i] != lower[i];
        return false;
      }
    }
    assert Lower(range) == lower;
    r := true;
  }

  /** Whether the range spells one of the words, all of the range's length. */
  method EqualsAny(s: string, start: nat, end: nat, words: seq<string>) returns (r: bool)
    requires start <= end <= |s|
    requires forall i :: 0 <= i < |words| ==> |words[i]| == end - start
    ensures r <==> Lower(s[start..end]) in words
  {
    for i := 0 to |words|
      invariant Lower(s[start..end]) !in words[..i]
    {
      r := AsciiEqualFoldRange(s, start, words[i]);
      if r {
        return;
      }
    }
    r := false;
  }

  method IsDangerousKeywordRange(s: string, start: nat, end: nat) returns (r: bool)
    requires start <= end <= |s|
    ensures r <==> Keyword(Lower(s[start..end]))
  {
    var n := end - start;
    if n == 2 {
      r := EqualsAny(s, start, end, ["or"]);
    } else if n == 3 {
      r := EqualsAny(s, start, end, ["and"]);
    } else if n == 4 {
      r := EqualsAny(s, start, end, ["from", "join", "drop", "exec"]);
    } else if n == 5 {
      r := EqualsAny(s, start, end, ["union", "alter", "grant", "sleep"]);
    } else if n == 6 {
      r := EqualsAny(s, start, end, ["select", "update", "delete", "insert", "revoke"]);
    } else if n == 7 {
      r := EqualsAny(s, start, end, ["execute", "prepare", "declare"]);
    } else if n == 8 {
      r := EqualsAny(s, start, end, ["truncate", "pg_sleep"]);
    } else if n == 9 {
      r := EqualsAny(s, start, end, ["benchmark"]);
    } else {
      r := false;
    }
  }

  datatype Fault = Empty | CommentMark | UnbalancedParens | UnbalancedBrackets | DangerousKeyword | InvalidCharacter

  /** The fault reported is one the expression has. */
  ghost predicate HasFault(s: string, u: Unicode, f: Fault) {
    match f
    case Empty => s == ""
    case CommentMark => !NoPair(s, '-', '-') || !NoPair(s, '/', '*')
    case UnbalancedParens => !Balanced(s, '(', ')')
    case UnbalancedBrackets => !Balanced(s, '[', ']')
    case DangerousKeyword => !NoKeyword(s, u)
    case InvalidCharacter => !OnlyAllowed(s, u)
  }

  /** No keyword among the words that end before position i. */
  ghost predicate NoKeywordBefore(s: string, i: int, u: Unicode) {
    forall a, b :: b < i && MaximalWord(s, a, b, u) ==> !Keyword(Lower(s[a..b]))
  }

  /** [start, i) is a stretch of word characters that cannot be extended to the left. */
  predicate OpenWord(s: string, start: int, i: int, u: Unicode) {
    && 0 <= start < i <= |s|
    && (forall k :: start <= k < i ==> WordChar(s[k], u))
    && (start == 0 || !WordChar(s[start - 1], u))
  }

  /** A word that ends at i is the open one. */
  lemma WordEnd(s: string, i: int, inWord: bool, start: int, u: Unicode)
    requires 0 <= i <= |s|
    requires if inWord then OpenWord(s, start, i, u) else i == 0 || !WordChar(s[i - 1], u)
    requires i == |s| || !WordChar(s[i], u)
    requires NoKeywordBefore(s, i, u)
    requires inWord ==> !Keyword(Lower(s[start..i]))
    ensures NoKeywordBefore(s, i + 1, u)
  {
    forall a, b | b == i && MaximalWord(s, a, b, u)
      ensures inWord && a == start
    {
    }
  }

  lemma InsideWord(s: string, i: int, u: Unicode)
    requires 0 <= i < |s| && WordChar(s[i], u) && NoKeywordBefore(s, i, u)
    ensures NoKeywordBefore(s, i + 1, u)
  {
  }

  /** The words of the first i characters: no keyword has ended, and the last one may be open. */
  ghost predicate Words(s: string, i: int, inWord: bool, start: int, u: Unicode) {
    && 0 <= i <= |s|
    && NoKeywordBefore(s, i, u)
    && if inWord then OpenWord(s, start, i, u) else i == 0 || !WordChar(s[i - 1], u)
  }

  method EndWord(s: string, i: nat, inWord: bool, wordStart: nat, u: Unicode) returns (dangerous: bool)
    requires Words(s, i, inWord, wordStart, u) && (i == |s| || !WordChar(s[i], u))
    ensures if dangerous then !NoKeyword(s, u) else NoKeywordBefore(s, i + 1, u)
  {
    dangerous := false;
    if inWord {
      dangerous := IsDangerousKeywordRange(s, wordStart, i);
      if dangerous {
        assert MaximalWord(s, wordStart, i, u);
        return;
      }
    }
    WordEnd(s, i, inWord, wordStart, u);
  }

  /** One character more: it opens a word, goes on with it or ends it. */
  method StepWord(s: string, i: nat, inWord: bool, wordStart: nat, u: Unicode)
    returns (inWord': bool, wordStart': nat, dangerous: bool)
    requires Words(s, i, inWord, wordStart, u) && i < |s|
    ensures if dangerous then !NoKeyword(s, u) else Words(s, i + 1, inWord', wordStart', u)
  {
    inWord', wordStart', dangerous := inWord, wordStart, false;
    if WordChar(s[i], u) {
      InsideWord(s, i, u);
      if !inWord {
        wordStart', inWord' := i, true;
      }
    } else {
      dangerous := EndWord(s, i, inWord, wordStart, u);
      inWord' := false;
    }
  }

  function Delta(c: char, open: char, close: char): int {
    if c == open then 1 else if c == close then -1 else 0
  }

  lemma {:induction false} DepthStep(s: string, i: nat, open: char, close: char)
    requires i < |s|
    ensures Depth(s[..i + 1], open, close) == Depth(s[..i], open, close) + Delta(s[i], open, close)
  {
    assert s[..i + 1][..i] == s[..i];
  }

  /** Everything but the keyword check holds of the first i characters, which end at the given depths. */
  ghost predicate CleanPrefix(s: string, i: int, parens: int, brackets: int, u: Unicode) {
    && 0 <= i <= |s|
    && (forall k :: 0 <= k < i ==> Allowed(s[k], u))
    && (forall k :: 0 <= k < i ==> !PairAt(s, k, '-', '-') && !PairAt(s, k, '/', '*'))
    && parens == Depth(s[..i], '(', ')') && brackets == Depth(s[..i], '[', ']')
    && (forall k :: 0 <= k <= i ==> Depth(s[..k], '(', ')') >= 0 && Depth(s[..k], '[', ']') >= 0)
  }

  lemma CleanStep(s: string, i: nat, parens: int, brackets: int, u: Unicode)
    requires CleanPrefix(s, i, parens, brackets, u) && i < |s| && Allowed(s[i], u)
    requires !PairAt(s, i, '-', '-') && !PairAt(s, i, '/', '*')
    requires parens + Delta(s[i], '(', ')') >= 0 && brackets + Delta(s[i], '[', ']') >= 0
    ensures CleanPrefix(s, i + 1, parens + Delta(s[i], '(', ')'), brackets + Delta(s[i], '[', ']'), u)
  {
    DepthStep(s, i, '(', ')');
    DepthStep(s, i, '[', ']');
  }

  lemma Unbalances(s: string, i: nat, parens: int, brackets: int, u: Unicode)
    requires CleanPrefix(s, i, parens, brackets, u) && i < |s|
    ensures parens + Delta(s[i], '(', ')') < 0 ==> !NeverNegative(s, '(', ')')
    ensures brackets + Delta(s[i], '[', ']') < 0 ==> !NeverNegative(s, '[', ']')
  {
    DepthStep(s, i, '(', ')');
    DepthStep(s, i, '[', ']');
  }

  method StepBalance(c: char, open: char, close: char, balance: nat) returns (balance': int)
    requires open != close
    ensures balance' == balance + Delta(c, open, close)
  {
    balance' := balance;
    if c == open {
      balance' := balance + 1;
    } else if c == close {
      balance' := balance - 1;
    }
  }

  lemma CleanWhole(s: string, parens: int, brackets: int, u: Unicode)
    requires CleanPrefix(s, |s|, parens, brackets, u) && NoKeywordBefore(s, |s| + 1, u)
    ensures OnlyAllowed(s, u) && NoPair(s, '-', '-') && NoPair(s, '/', '*') && NoKeyword(s, u)
    ensures Balanced(s, '(', ')') <==> parens == 0
    ensures Balanced(s, '[', ']') <==> brackets == 0
  {
    assert s[..|s|] == s;
  }

  method ValidateExpression(expr: string, u: Unicode) returns (ok: bool, fault: Fault)
    ensures ok <==> Acceptable(expr, u)
    ensures !ok ==> HasFault(expr, u, fault)
  {
    fault := Empty;
    if expr == "*" {
      return true, fault;
    }
    if |expr| == 0 {
      return false, Empty;
    }
    var parenBalance, bracketBalance := 0, 0;
    var prevChar := '\0';
    var wordStart, inWord := 0, false;
    for i := 0 to |expr|
      invariant prevChar == if i > 0 then expr[i - 1] else '\0'
      invariant CleanPrefix(expr, i, parenBalance, bracketBalance, u)
      invariant Words(expr, i, inWord, wordStart, u)
    {
      var c := expr[i];
      Unbalances(expr, i, parenBalance, bracketBalance, u);
      if c == '-' && prevChar == '-' {
        assert PairAt(expr, i, '-', '-');
        return false, CommentMark;
      }
      if c == '*' && prevChar == '/' {
        assert PairAt(expr, i, '/', '*');
        return false, CommentMark;
      }
      var parens := StepBalance(c, '(', ')', parenBalance);
      if parens < 0 {
        return false, UnbalancedParens;
      }
      var brackets := StepBalance(c, '[', ']', bracketBalance);
      if brackets < 0 {
        return false, UnbalancedBrackets;
      }
      var dangerous;
      inWord, wordStart, dangerous := StepWord(expr, i, inWord, wordStart, u);
      if dangerous {
        return false, DangerousKeyword;
      }
      if !Allowed(c, u) {
        return false, InvalidCharacter;
      }
      CleanStep(expr, i, parenBalance, bracketBalance, u);
      parenBalance, bracketBalance, prevChar := parens, brackets, c;
    }
    var dangerous := EndWord(expr, |expr|, inWord, wordStart, u);
    if dangerous {
      return false, DangerousKeyword;
    }
    CleanWhole(expr, parenBalance, bracketBalance, u);
    if parenBalance != 0 {
      return false, UnbalancedParens;
    }
    if bracketBalance != 0 {
      return false, UnbalancedBrackets;
    }
    return true, fault;
  }

  // ---------- Identifiers ----------

  predicate IdentLetter(c: char, u: Unicode) {
    if IsAscii(c) then AsciiLetter(c) || c == '_' || c == '.' else u.letter(c)
  }

  predicate IdentDigit(c: char, u: Unicode) {
    if IsAscii(c) then IsDigit(c) else u.digit(c) && !u.letter(c)
  }

  /** Letters, digits, underscores and dots, and not digits alone. */
  ghost predicate Identifier(s: string, u: Unicode) {
    || s == "*"
    || (&& (forall i :: 0 <= i < |s| ==> IdentLetter(s[i], u) || IdentDigit(s[i], u))
        && exists i :: 0 <= i < |s| && IdentLetter(s[i], u))
  }

  method ValidateIdentifier(name: string, u: Unicode) returns (ok: bool)
    ensures ok <==> Identifier(name, u)
  {
    if name == "*" {
      return true;
    }
    if |name| == 0 {
      return false;
    }
    var isAllDigits := true;
    for i := 0 to |name|
      invariant forall k :: 0 <= k < i ==> IdentLetter(name[k], u) || IdentDigit(name[k], u)
      invariant isAllDigits <==> forall k :: 0 <= k < i ==> !IdentLetter(name[k], u)
    {
      var c := name[i];
      if IsAscii(c) {
        if AsciiLetter(c) || c == '_' || c == '.' {
          isAllDigits := false;
          continue;
        }
        if IsDigit(c) {
          continue;
        }
        return false;
      }
      if u.letter(c) {
        isAllDigits := false;
      } else if !u.digit(c) {
        return false;
      }
    }
    ok := !isAllDigits;
  }
}
