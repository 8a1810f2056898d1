/** The two header patterns of app.py, both of the shape `.*\(<class>{lo,hi}\)` and both
    applied with `re.match`, which anchors at the start of the header but not at its end.
    `.*` is greedy and stops at the first newline, so the match that wins is the one whose
    '(' lies furthest right before the first newline. */
module Patterns {
  import opened Wrappers
  import opened Text

  /** `.*\(<class>{minLen,maxLen}\)`, where the class is `[\w-]` if `hyphen` and `\w` if not. */
  datatype CodePattern = CodePattern(hyphen: bool, minLen: nat, maxLen: nat)

  /** `.*\(([\w-]{2,10})\)`: a language column (app.py:164). */
  const LanguageColumn := CodePattern(true, 2, 10)

  /** `.*\((\w{2})\)`: a header offering a target language (app.py:180). */
  const TwoLetterCode := CodePattern(false, 2, 2)

  predicate InClass(p: CodePattern, c: char) {
    IsWordChar(c) || (p.hyphen && c == '-')
  }

  /** Declarative reading of a match: `.*` consumes `s[..k]` (no newline in it), then
      `(`, `n` class characters forming group 1, and `)`. */
  ghost predicate GroupAt(p: CodePattern, s: string, k: int, n: int) {
    && 0 <= k && k + n + 2 <= |s|
    && p.minLen <= n <= p.maxLen
    && (forall i :: 0 <= i < k ==> s[i] != '\n')
    && s[k] == '('
    && (forall i :: k < i <= k + n ==> InClass(p, s[i]))
    && s[k + n + 1] == ')'
  }

  /** Length of the longest run of class characters starting at `i`. */
  function RunLength(p: CodePattern, s: string, i: nat): (n: nat)
    requires i <= |s|
    ensures i + n <= |s|
    ensures forall m :: i <= m < i + n ==> InClass(p, s[m])
    ensures i + n == |s| || !InClass(p, s[i + n])
    decreases |s| - i
  {
    if i < |s| && InClass(p, s[i]) then 1 + RunLength(p, s, i + 1) else 0
  }

  /** The group captured when the `(` is taken at `k`, if the rest of the pattern fits there. */
  function CodeAt(p: CodePattern, s: string, k: nat): Option<string>
    requires k <= |s|
  {
    if k < |s| && s[k] == '(' then
      var n := RunLength(p, s, k + 1);
      if p.minLen <= n <= p.maxLen && k + n + 1 < |s| && s[k + n + 1] == ')'
      then Some(s[k + 1..k + n + 1])
      else None
    else None
  }

  /** Length of the longest prefix of `s` free of newlines: how far `.*` can reach. */
  function LineLength(s: string): (n: nat)
    ensures n <= |s|
    ensures forall i :: 0 <= i < n ==> s[i] != '\n'
    ensures n == |s| || s[n] == '\n'
  {
    if s == [] || s[0] == '\n' then 0 else 1 + LineLength(s[1..])
  }

  /** Backtracking of the greedy `.*`: try the `(` at k, then k - 1, ..., then 0. */
  function MatchDownFrom(p: CodePattern, s: string, k: nat): Option<string>
    requires k <= |s|
  {
    match CodeAt(p, s, k)
    case Some(code) => Some(code)
    case None => if k == 0 then None else MatchDownFrom(p, s, k - 1)
  }

  /** `re.match(pattern, s)` followed by `.group(1)`; `None` when there is no match. */
  function Match(p: CodePattern, s: string): Option<string> {
    MatchDownFrom(p, s, LineLength(s))
  }

  lemma {:induction false} RunLengthIs(p: CodePattern, s: string, i: nat, n: nat)
    requires i + n <= |s|
    requires forall m :: i <= m < i + n ==> InClass(p, s[m])
    requires i + n == |s| || !InClass(p, s[i + n])
    ensures RunLength(p, s, i) == n
    decreases n
  {
    if n > 0 {
      RunLengthIs(p, s, i + 1, n - 1);
    }
  }

  lemma CodeAtGroup(p: CodePattern, s: string, k: nat)
    requires k <= |s|
    ensures CodeAt(p, s, k).Some? ==>
      && s[k] == '('
      && var code := CodeAt(p, s, k).value;
      && k + |code| + 2 <= |s| && p.minLen <= |code| <= p.maxLen
      && code == s[k + 1..k + |code| + 1]
      && (forall i :: k < i <= k + |code| ==> InClass(p, s[i]))
      && s[k + |code| + 1] == ')'
    ensures forall n :: GroupAt(p, s, k, n) ==> CodeAt(p, s, k) == Some(s[k + 1..k + n + 1])
  {
    forall n | GroupAt(p, s, k, n)
      ensures CodeAt(p, s, k) == Some(s[k + 1..k + n + 1])
    {
      RunLengthIs(p, s, k + 1, n);
    }
  }

  /** Group 1 of the winning match, taken at `.*`-length `k` with a group of `n` characters. */
  ghost predicate RightmostGroup(p: CodePattern, s: string, k: int, code: string) {
    && GroupAt(p, s, k, |code|)
    && code == s[k + 1..k + |code| + 1]
    && forall k', n' :: GroupAt(p, s, k', n') ==> k' <= k
  }

  lemma {:induction false} MatchDownFromSpec(p: CodePattern, s: string, k: nat)
    requires k <= LineLength(s)
    requires forall k', n' :: GroupAt(p, s, k', n') ==> k' <= k
    ensures MatchDownFrom(p, s, k).None? ==> forall k', n' :: !GroupAt(p, s, k', n')
    ensures MatchDownFrom(p, s, k).Some? ==>
      exists k' :: RightmostGroup(p, s, k', MatchDownFrom(p, s, k).value)
  {
    CodeAtGroup(p, s, k);
    match CodeAt(p, s, k)
    case Some(code) =>
      assert RightmostGroup(p, s, k, code);
    case None =>
      if k > 0 {
        MatchDownFromSpec(p, s, k - 1);
      }
  }

  /** A header matches exactly when some placement of the `(` fits the pattern, and the
      captured code is the group whose `(` lies furthest right (greedy `.*`). */
  lemma MatchIsRightmostGroup(p: CodePattern, s: string)
    ensures Match(p, s).Some? <==> exists k, n :: GroupAt(p, s, k, n)
    ensures Match(p, s).Some? ==> exists k :: RightmostGroup(p, s, k, Match(p, s).value)
  {
    var line := LineLength(s);
    forall k', n' | GroupAt(p, s, k', n') ensures k' <= line {}
    MatchDownFromSpec(p, s, line);
    if Match(p, s).Some? {
      var k :| RightmostGroup(p, s, k, Match(p, s).value);
    }
  }

  /** Every captured code is 2 to 10 characters, each a word character or `-`, and for the
      two-letter pattern exactly two word characters. */
  lemma MatchShape(p: CodePattern, s: string)
    ensures Match(p, s).Some? ==>
      var code := Match(p, s).value;
      && p.minLen <= |code| <= p.maxLen
      && forall i :: 0 <= i < |code| ==> InClass(p, code[i])
  {
    MatchIsRightmostGroup(p, s);
    if Match(p, s).Some? {
      var code := Match(p, s).value;
      var k :| RightmostGroup(p, s, k, code);
      forall i | 0 <= i < |code| ensures InClass(p, code[i]) {
        assert code[i] == s[k + 1 + i];
      }
    }
  }
}
