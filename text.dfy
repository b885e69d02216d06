/** The few pieces of Python's `str` behaviour the catalog helpers rely on:
    `strip()` and `strip(chars)`, `lower()` (as far as it matters for ASCII
    words), `startswith` and the ordering `sorted()` uses on strings. */
module Text {

  /** Python's `str.isspace()`: the characters `str.strip()` removes when it is
      given no argument. */
  predicate IsSpace(c: char) {
    || ('\t' <= c <= '\r')
    || ('\U{1C}' <= c <= '\U{1F}')
    || c == ' '
    || c == '\U{85}'
    || c == '\U{A0}'
    || c == '\U{1680}'
    || ('\U{2000}' <= c <= '\U{200A}')
    || c == '\U{2028}'
    || c == '\U{2029}'
    || c == '\U{202F}'
    || c == '\U{205F}'
    || c == '\U{3000}'
  }

  /** The argument of Python's `strip`: none (whitespace) or a set of characters. */
  datatype StripSet = Whitespace | OneOf(chars: set<char>) {
    predicate Has(c: char) {
      match this
      case Whitespace => IsSpace(c)
      case OneOf(cs) => c in cs
    }
  }

  /** Python's `lstrip`: drops the longest prefix made of characters of `cs`. */
  function StripStart(s: string, cs: StripSet): (r: string)
    ensures |r| <= |s|
  {
    if s != [] && cs.Has(s[0]) then StripStart(s[1..], cs) else s
  }

  /** `lstrip` keeps a suffix, drops only characters of `cs`, and leaves a
      text that does not start with one. */
  lemma {:induction false} StripStartFacts(s: string, cs: StripSet)
    ensures var r := StripStart(s, cs);
            && r == s[|s| - |r|..]
            && (forall k :: 0 <= k < |s| - |r| ==> cs.Has(s[k]))
            && (r == [] || !cs.Has(r[0]))
  {
    if s != [] && cs.Has(s[0]) {
      StripStartFacts(s[1..], cs);
    }
  }

  /** Python's `rstrip`: drops the longest suffix made of characters of `cs`. */
  function StripEnd(s: string, cs: StripSet): (r: string)
    ensures |r| <= |s|
  {
    if s != [] && cs.Has(s[|s| - 1]) then StripEnd(s[..|s| - 1], cs) else s
  }

  /** `rstrip` keeps a prefix, drops only characters of `cs`, and leaves a
      text that does not end with one. */
  lemma {:induction false} StripEndFacts(s: string, cs: StripSet)
    ensures var r := StripEnd(s, cs);
            && r == s[..|r|]
            && (forall k :: |r| <= k < |s| ==> cs.Has(s[k]))
            && (r == [] || !cs.Has(r[|r| - 1]))
  {
    if s != [] && cs.Has(s[|s| - 1]) {
      StripEndFacts(s[..|s| - 1], cs);
    }
  }

  /** How many characters `Strip(s, cs)` removes at the front. */
  function LeadingCount(s: string, cs: StripSet): nat {
    |s| - |StripStart(s, cs)|
  }

  /** Python's `strip`: what is left after dropping characters of `cs` at both
      ends; it neither starts nor ends with one of them. */
  function Strip(s: string, cs: StripSet): (r: string)
    ensures |r| <= |s|
    ensures IsStripped(r, cs)
  {
    StripStartFacts(s, cs);
    StripEndFacts(StripStart(s, cs), cs);
    StripEnd(StripStart(s, cs), cs)
  }

  /** `strip` keeps an infix of `s` and drops characters of `cs` only. */
  lemma StripFacts(s: string, cs: StripSet)
    ensures var r := Strip(s, cs);
            && LeadingCount(s, cs) + |r| <= |s|
            && r == s[LeadingCount(s, cs)..LeadingCount(s, cs) + |r|]
            && (forall k :: 0 <= k < LeadingCount(s, cs) ==> cs.Has(s[k]))
            && (forall k :: LeadingCount(s, cs) + |r| <= k < |s| ==> cs.Has(s[k]))
  {
    var t := StripStart(s, cs);
    StripStartFacts(s, cs);
    StripEndFacts(t, cs);
    var r := Strip(s, cs);
    var a := LeadingCount(s, cs);
    forall k | a + |r| <= k < |s| ensures cs.Has(s[k]) {
      assert s[k] == t[k - a];
    }
  }

  /** A string Python's `strip` leaves as it is. */
  predicate IsStripped(s: string, cs: StripSet) {
    s == [] || (!cs.Has(s[0]) && !cs.Has(s[|s| - 1]))
  }

  lemma {:induction false} StripOfStripped(s: string, cs: StripSet)
    requires IsStripped(s, cs)
    ensures Strip(s, cs) == s
  {
    assert StripStart(s, cs) == s;
  }

  /** ASCII lower-casing. Python's `lower()` covers all of Unicode, but the only
      non-ASCII characters whose lower-case form holds an ASCII letter are
      U+212A (to `k`) and U+0130 (to `i` and a combining dot), so comparing the
      lower-cased text with words made of other ASCII characters, as
      `Cleaning.CleanVal` does, is decided by the ASCII letters alone. */
  function LowerChar(c: char): char {
    if 'A' <= c <= 'Z' then (c as int + 32) as char else c
  }

  function Lower(s: string): (r: string)
    ensures |r| == |s|
  {
    if s == [] then [] else [LowerChar(s[0])] + Lower(s[1..])
  }

  /** Python's `str.startswith`. */
  predicate StartsWith(s: string, prefix: string) {
    prefix <= s
  }

  /** Python's `<` on `str`: lexicographic by code point, a proper prefix first. */
  predicate LexLess(a: string, b: string) {
    if a == [] then b != []
    else if b == [] then false
    else if a[0] != b[0] then a[0] < b[0]
    else LexLess(a[1..], b[1..])
  }

  lemma {:induction false} LexIrreflexive(a: string)
    ensures !LexLess(a, a)
  {
    if a != [] {
      LexIrreflexive(a[1..]);
    }
  }

  lemma {:induction false} LexTransitive(a: string, b: string, c: string)
    requires LexLess(a, b) && LexLess(b, c)
    ensures LexLess(a, c)
  {
    if a != [] && b != [] && c != [] && a[0] == b[0] == c[0] {
      LexTransitive(a[1..], b[1..], c[1..]);
    }
  }

  lemma {:induction false} LexTotal(a: string, b: string)
    requires a != b
    ensures LexLess(a, b) || LexLess(b, a)
  {
    if a != [] && b != [] && a[0] == b[0] {
      assert a == [a[0]] + a[1..] && b == [b[0]] + b[1..];
      LexTotal(a[1..], b[1..]);
    }
  }

  lemma {:induction false} LexAsymmetric(a: string, b: string)
    requires LexLess(a, b)
    ensures !LexLess(b, a)
  {
    if a != [] && b != [] && a[0] == b[0] {
      LexAsymmetric(a[1..], b[1..]);
    }
  }
}
