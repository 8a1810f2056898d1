/** The pieces of Python 3 `str` semantics the app relies on: the `\w` character class,
    `str.lower`, `str.endswith`, the `in` substring test and the ordering `sorted` uses.
    Character classes and case mapping are exact on U+0000..U+017F (ASCII, Latin-1 and
    Latin Extended-A, which covers Slovak); above that every character is a non-word
    character that lower-cases to itself. */
module Text {

  /** Python's `\w` on a `str`: letters, digits, numeric characters and `_`. */
  predicate IsWordChar(c: char) {
    || ('a' <= c <= 'z') || ('A' <= c <= 'Z') || ('0' <= c <= '9') || c == '_'
    || c == '\U{AA}' || c == '\U{B2}' || c == '\U{B3}' || c == '\U{B5}'
    || c == '\U{B9}' || c == '\U{BA}' || ('\U{BC}' <= c <= '\U{BE}')
    || ('\U{C0}' <= c <= '\U{17F}' && c != '\U{D7}' && c != '\U{F7}')
  }

  /** `c.lower()`; it is two characters long for U+0130 (capital I with dot above). */
  function LowerChar(c: char): (r: string)
    ensures 1 <= |r| <= 2
  {
    if ('A' <= c <= 'Z') || ('\U{C0}' <= c <= '\U{DE}' && c != '\U{D7}') then
      [(c as int + 32) as char]
    else if c == '\U{130}' then
      ['i', '\U{307}']
    else if || ('\U{100}' <= c <= '\U{137}' && c as int % 2 == 0)
            || ('\U{14A}' <= c <= '\U{177}' && c as int % 2 == 0)
            || ('\U{139}' <= c <= '\U{148}' && c as int % 2 == 1)
            || ('\U{179}' <= c <= '\U{17E}' && c as int % 2 == 1) then
      [(c as int + 1) as char]
    else if c == '\U{178}' then
      ['\U{FF}']
    else
      [c]
  }

  /** `s.lower()`. */
  function Lower(s: string): string {
    if s == [] then [] else LowerChar(s[0]) + Lower(s[1..])
  }

  /** Every character `c.lower()` produces is one that `lower` leaves as it is. */
  lemma LowerCharIsLowerCase(c: char)
    ensures forall i :: 0 <= i < |LowerChar(c)| ==> LowerChar(LowerChar(c)[i]) == [LowerChar(c)[i]]
  {
  }

  /** `s.lower()` is lower case throughout: `lower` leaves each of its characters as it is,
      so no character that `lower` changes (a capital letter) survives in it. */
  lemma {:induction false} LowerIsLowerCase(s: string)
    ensures forall i :: 0 <= i < |Lower(s)| ==> LowerChar(Lower(s)[i]) == [Lower(s)[i]]
  {
    if s != [] {
      LowerIsLowerCase(s[1..]);
      LowerCharIsLowerCase(s[0]);
      assert Lower(s) == LowerChar(s[0]) + Lower(s[1..]);
    }
  }

  /** `s.endswith(suffix)`. */
  predicate EndsWith(s: string, suffix: string) {
    |suffix| <= |s| && s[|s| - |suffix|..] == suffix
  }

  /** A lower-cased string never ends with a suffix holding a character that `lower`
      changes. */
  lemma LowerMissesCapitalSuffix(s: string, suffix: string, at: nat)
    requires at < |suffix| && LowerChar(suffix[at]) != [suffix[at]]
    ensures !EndsWith(Lower(s), suffix)
  {
    var low := Lower(s);
    assert EndsWith(low, suffix) ==> low[|low| - |suffix| + at] == suffix[at];
    LowerIsLowerCase(s);
  }

  /** `w in s` for strings: `w` occurs in `s` as a contiguous substring. */
  predicate Contains(s: string, w: string) {
    w <= s || (s != [] && Contains(s[1..], w))
  }

  /** `a < b` on Python strings: lexicographic by code point, a proper prefix first. */
  predicate Below(a: string, b: string) {
    if a == [] then b != []
    else if b == [] then false
    else a[0] < b[0] || (a[0] == b[0] && Below(a[1..], b[1..]))
  }

  lemma {:induction false} BelowIrreflexive(a: string)
    ensures !Below(a, a)
  {
    if a != [] {
      BelowIrreflexive(a[1..]);
    }
  }

  lemma {:induction false} BelowTransitive(a: string, b: string, c: string)
    requires Below(a, b) && Below(b, c)
    ensures Below(a, c)
  {
    if a != [] && b != [] && c != [] && a[0] == b[0] == c[0] {
      BelowTransitive(a[1..], b[1..], c[1..]);
    }
  }

  lemma {:induction false} BelowTotal(a: string, b: string)
    ensures a == b || Below(a, b) || Below(b, a)
  {
    if a != [] && b != [] && a[0] == b[0] {
      BelowTotal(a[1..], b[1..]);
      if a[1..] == b[1..] {
        assert a == [a[0]] + a[1..] && b == [b[0]] + b[1..];
      }
    }
  }
}
