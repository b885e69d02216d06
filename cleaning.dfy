/** The value-cleaning helpers of the catalog front end (app.py): `clean_val`,
    `clean_category` and `clean_image`. A cell of the catalog reaches them as
    Python `None` or as the text `str(val)` makes of it (a missing pandas value
    becomes the text "nan"). */
module Cleaning {
  import opened Options
  import opened Text

  /** The fallback the helpers use for a missing value: U+2014 EM DASH. */
  const Dash: string := "\U{2014}"

  /** The texts `clean_val` treats as missing, compared after lower-casing. */
  predicate NullLike(s: string) {
    Lower(s) in {"nan", "none", "", "n/a"}
  }

  /** `clean_val(val, fallback)`: `None`, or a text that is one of the missing
      markers once trimmed, gives the fallback; any other text is returned
      trimmed, and is then non-empty with no surrounding whitespace. */
  function CleanVal(val: Option<string>, fallback: string := Dash): (r: string)
    ensures val.None? ==> r == fallback
    ensures val.Some? && NullLike(Strip(val.value, Whitespace)) ==> r == fallback
    ensures val.Some? && !NullLike(Strip(val.value, Whitespace)) ==>
              r == Strip(val.value, Whitespace) && r != [] && IsStripped(r, Whitespace)
  {
    match val
    case None => fallback
    case Some(text) =>
      var s := Strip(text, Whitespace);
      if NullLike(s) then fallback else s
  }

  /** Cleaning a value twice changes nothing, as long as the fallback itself
      has no surrounding whitespace (true of both fallbacks the front end
      uses, the dash and the empty text). */
  lemma CleanValIdempotent(val: Option<string>, fallback: string)
    requires IsStripped(fallback, Whitespace)
    ensures CleanVal(Some(CleanVal(val, fallback)), fallback) == CleanVal(val, fallback)
  {
    var r := CleanVal(val, fallback);
    StripOfStripped(r, Whitespace);
  }

  predicate IsQuote(c: char) {
    c == '"' || c == '\''
  }

  /** `s` holds no `"` and no `'`. */
  predicate QuoteFree(s: string) {
    forall k :: 0 <= k < |s| ==> !IsQuote(s[k])
  }

  /** A text the pattern `^\[["']?` matches in full: a `[`, optionally
      followed by one quote. */
  predicate ListOpening(p: string) {
    |p| > 0 && p[0] == '[' && (|p| == 1 || (|p| == 2 && IsQuote(p[1])))
  }

  /** `re.sub(r"^\[[\"\']?", "", s)`: removes the longest prefix the pattern
      matches (`?` is greedy, so a quote right after the `[` goes too), and
      leaves a text the pattern does not match as it is. */
  function DropListOpening(s: string): (r: string)
    ensures (s == [] || s[0] != '[') ==> r == s
    ensures s != [] && s[0] == '[' ==>
              && |r| < |s| && r == s[|s| - |r|..]
              && ListOpening(s[..|s| - |r|])
              && forall k :: |s| - |r| < k <= |s| ==> !ListOpening(s[..k])
  {
    if |s| > 0 && s[0] == '[' then
      if |s| > 1 && IsQuote(s[1]) then s[2..] else s[1..]
    else s
  }

  /** The end of the line that position `j` is on: the first line break at or
      after `j`, or the end of the text. */
  function LineEnd(s: string, j: nat): (e: nat)
    requires j <= |s|
    ensures j <= e <= |s|
    ensures e == |s| || s[e] == '\n'
    ensures forall k :: j <= k < e ==> s[k] != '\n'
    decreases |s| - j
  {
    if j == |s| || s[j] == '\n' then j else LineEnd(s, j + 1)
  }

  /** The pattern `["'].*$` matches at `q`: a quote, then `.*`, which stops at a
      line break, then `$`, which (the pattern has no MULTILINE flag) holds only
      at the end of the text or just before a line break that ends it. */
  predicate QuoteMatchesAt(s: string, q: nat) {
    q < |s| && IsQuote(s[q]) && LineEnd(s, q + 1) + 1 >= |s|
  }

  /** The first position at or after `from` where `["'].*$` matches. */
  function FirstQuoteMatch(s: string, from: nat): (m: Option<nat>)
    requires from <= |s|
    ensures m.Some? ==> from <= m.value < |s| && QuoteMatchesAt(s, m.value)
    ensures m.Some? ==> forall k :: from <= k < m.value ==> !QuoteMatchesAt(s, k)
    ensures m.None? ==> forall k :: from <= k < |s| ==> !QuoteMatchesAt(s, k)
    decreases |s| - from
  {
    if from == |s| then None
    else if QuoteMatchesAt(s, from) then Some(from)
    else FirstQuoteMatch(s, from + 1)
  }

  /** `re.sub(r"[\"\'].*$", "", s)`: removes the text from the first quote that
      the pattern matches at up to the end of its line. On text without a line
      break this cuts the text at its first quote. */
  function CutAtQuote(s: string): (r: string)
    ensures '\n' !in s ==> r <= s && QuoteFree(r) && (r == s || IsQuote(s[|r|]))
  {
    match FirstQuoteMatch(s, 0)
    case None =>
      assert '\n' !in s ==> forall k :: 0 <= k < |s| ==> !IsQuote(s[k]) by {
        if '\n' !in s {
          forall k | 0 <= k < |s| ensures !IsQuote(s[k]) {
            assert !QuoteMatchesAt(s, k);
          }
        }
      }
      s
    case Some(q) =>
      assert '\n' !in s ==> LineEnd(s, q + 1) == |s| && QuoteFree(s[..q]) by {
        if '\n' !in s {
          forall k | 0 <= k < q ensures !IsQuote(s[k]) {
            assert !QuoteMatchesAt(s, k);
          }
        }
      }
      s[..q] + s[LineEnd(s, q + 1)..]
  }

  /** A `>>` starts at position `i` of `s`. */
  predicate SeparatorAt(s: string, i: int) {
    0 <= i < |s| - 1 && s[i] == '>' && s[i + 1] == '>'
  }

  /** `s` holds no `>>`. */
  predicate SeparatorFree(s: string) {
    forall i :: 0 <= i < |s| - 1 ==> !SeparatorAt(s, i)
  }

  /** `s.split(">>")[0]`: the text before the first `>>`, or all of it. */
  function FirstSegment(s: string): (r: string)
    ensures r <= s
    ensures forall i :: 0 <= i < |r| ==> !SeparatorAt(s, i)
    ensures SeparatorFree(r)
    ensures r == s || SeparatorAt(s, |r|)
  {
    if |s| < 2 then s
    else if s[0] == '>' && s[1] == '>' then []
    else
      var rest := FirstSegment(s[1..]);
      var r := [s[0]] + rest;
      assert forall i :: 0 < i < |r| ==> !SeparatorAt(s, i) by {
        forall i | 0 < i < |r| ensures !SeparatorAt(s, i) {
          assert SeparatorAt(s, i) == SeparatorAt(s[1..], i - 1);
        }
      }
      assert SeparatorFree(r) by {
        forall i ensures !SeparatorAt(r, i) {
          if i > 0 {
            assert !SeparatorAt(rest, i - 1);
          }
        }
      }
      r
  }

  lemma SeparatorFreeInfix(s: string, a: nat, b: nat)
    requires a <= b <= |s| && SeparatorFree(s)
    ensures SeparatorFree(s[a..b])
  {
    forall i ensures !SeparatorAt(s[a..b], i) {
      if SeparatorAt(s[a..b], i) {
        assert SeparatorAt(s, a + i);
      }
    }
  }

  lemma StripKeepsSeparatorFree(s: string, cs: StripSet)
    requires SeparatorFree(s)
    ensures SeparatorFree(Strip(s, cs))
  {
    var r := Strip(s, cs);
    StripFacts(s, cs);
    SeparatorFreeInfix(s, LeadingCount(s, cs), LeadingCount(s, cs) + |r|);
  }

  lemma StripKeepsQuoteFree(s: string, cs: StripSet)
    requires QuoteFree(s)
    ensures QuoteFree(Strip(s, cs))
  {
    var r := Strip(s, cs);
    var a := LeadingCount(s, cs);
    StripFacts(s, cs);
    forall k | 0 <= k < |r| ensures !IsQuote(r[k]) {
      assert r[k] == s[a + k];
    }
  }

  /** The three `strip` calls that end `clean_category`: whitespace, then
      double quotes, then single quotes. */
  function StripSegment(segment: string): (t: string)
    ensures SeparatorFree(segment) ==> SeparatorFree(t)
    ensures QuoteFree(segment) ==> t == Strip(segment, Whitespace) && QuoteFree(t)
  {
    StripSegmentKeeps(segment);
    Strip(Strip(Strip(segment, Whitespace), OneOf({'"'})), OneOf({'\''}))
  }

  lemma StripSegmentKeeps(segment: string)
    ensures var t := Strip(Strip(Strip(segment, Whitespace), OneOf({'"'})), OneOf({'\''}));
            && (SeparatorFree(segment) ==> SeparatorFree(t))
            && (QuoteFree(segment) ==> t == Strip(segment, Whitespace) && QuoteFree(t))
  {
    var trimmed := Strip(segment, Whitespace);
    var unquoted := Strip(trimmed, OneOf({'"'}));
    if SeparatorFree(segment) {
      StripKeepsSeparatorFree(segment, Whitespace);
      StripKeepsSeparatorFree(trimmed, OneOf({'"'}));
      StripKeepsSeparatorFree(unquoted, OneOf({'\''}));
    }
    if QuoteFree(segment) {
      StripKeepsQuoteFree(segment, Whitespace);
      StripOfStripped(trimmed, OneOf({'"'}));
      StripOfStripped(trimmed, OneOf({'\''}));
    }
  }

  /** What `clean_category` makes of a cleaned, non-missing value before the
      final check for emptiness. */
  function CategoryText(s: string): (t: string)
    ensures SeparatorFree(t)
    ensures '\n' !in s ==> QuoteFree(t) && IsStripped(t, Whitespace)
  {
    CategoryTextFacts(s);
    StripSegment(FirstSegment(CutAtQuote(DropListOpening(s))))
  }

  lemma CategoryTextFacts(s: string)
    ensures var t := StripSegment(FirstSegment(CutAtQuote(DropListOpening(s))));
            && SeparatorFree(t)
            && ('\n' !in s ==> QuoteFree(t) && IsStripped(t, Whitespace))
  {
    var unwrapped := DropListOpening(s);
    var cut := CutAtQuote(unwrapped);
    var segment := FirstSegment(cut);
    var t := StripSegment(segment);
    assert SeparatorFree(segment);
    if '\n' !in s {
      assert '\n' !in unwrapped;
      assert QuoteFree(cut);
      forall k | 0 <= k < |segment| ensures !IsQuote(segment[k]) {
        assert segment[k] == cut[k];
      }
      assert t == Strip(segment, Whitespace);
    }
  }

  /** `clean_category(val)`: reduces a raw category-tree text to its first
      segment. Never empty; the dash when the value is missing or nothing
      survives; never holds a `>>`. */
  function CleanCategory(val: Option<string>): (r: string)
    ensures r != []
    ensures CleanVal(val) == Dash ==> r == Dash
    ensures SeparatorFree(r)
  {
    var s := CleanVal(val);
    if s == Dash then Dash
    else
      var t := CategoryText(s);
      if t == [] then Dash else t
  }

  /** Text without a line break loses every quote in `clean_category`, and what
      is left has no surrounding whitespace. */
  lemma CleanCategoryQuoteFree(val: Option<string>)
    requires val.Some? ==> '\n' !in val.value
    ensures QuoteFree(CleanCategory(val))
    ensures IsStripped(CleanCategory(val), Whitespace)
  {
    var s := CleanVal(val);
    if s != Dash {
      var text := val.value;
      var a := LeadingCount(text, Whitespace);
      StripFacts(text, Whitespace);
      assert s == text[a..a + |s|];
      assert '\n' !in s by {
        forall k | 0 <= k < |s| ensures s[k] != '\n' {
          assert s[k] == text[a + k];
        }
      }
    }
  }

  /** A plain category path (no quotes, no opening `[`, not a missing marker)
      gives its first `>>` segment with the surrounding whitespace removed, or
      the dash when that segment is blank. */
  lemma CleanCategoryOfPlainPath(text: string)
    requires QuoteFree(text)
    requires !NullLike(Strip(text, Whitespace))
    requires !StartsWith(Strip(text, Whitespace), "[")
    ensures CleanCategory(Some(text)) ==
              var segment := Strip(FirstSegment(Strip(text, Whitespace)), Whitespace);
              if segment == [] then Dash else segment
  {
    var s := Strip(text, Whitespace);
    assert CleanVal(Some(text)) == s;
    var segment := FirstSegment(s);
    if s == Dash {
      assert segment == s;
      StripOfStripped(s, Whitespace);
    } else {
      StripKeepsQuoteFree(text, Whitespace);
      assert DropListOpening(s) == s;
      CutOfQuoteFree(s);
      assert QuoteFree(segment) by {
        forall k | 0 <= k < |segment| ensures !IsQuote(segment[k]) {
          assert segment[k] == s[k];
        }
      }
      assert CategoryText(s) == StripSegment(segment) == Strip(segment, Whitespace);
    }
  }

  lemma CutOfQuoteFree(s: string)
    requires QuoteFree(s)
    ensures CutAtQuote(s) == s
  {
  }

  /** No missing marker, and not the dash, starts with `http`. */
  lemma LinkIsNotMissing(t: string)
    ensures StartsWith(t, "http") ==> !NullLike(t) && t != Dash
  {
    if StartsWith(t, "http") {
      assert Lower(t)[0] == 'h';
      assert t[0] != Dash[0];
    }
  }

  /** `clean_image(val)`: the cleaned value when it is a link starting with
      `http`, otherwise `None`. Since no missing marker starts with `http`, this
      is the trimmed text exactly when that text starts with `http`. */
  function CleanImage(val: Option<string>): (r: Option<string>)
    ensures r.Some? <==> val.Some? && StartsWith(Strip(val.value, Whitespace), "http")
    ensures r.Some? ==> r.value == Strip(val.value, Whitespace)
  {
    var s := CleanVal(val);
    LinkIsNotMissing(if val.Some? then Strip(val.value, Whitespace) else []);
    if s != Dash && StartsWith(s, "http") then Some(s) else None
  }
}
