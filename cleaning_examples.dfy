/** Worked inputs for `clean_category`: a plain category path, a list-style
    first segment as the catalog stores it, and a value in which a quote comes
    before a line break, which the quote-cutting pattern of `clean_category`
    does not reach. Each small lemma settles one step on one literal text,
    which keeps every proof obligation small. */
module CleaningExamples {
  import opened Options
  import opened Text
  import opened Cleaning

  /** `clean_category("A >> B >> C") == "A"`. */
  lemma CleanCategoryOfPath()
    ensures CleanCategory(Some("A >> B >> C")) == "A"
  {
    PathIsTrimmed();
    PathIsPlain();
    PathFirstSegment();
    SegmentTrimmed();
    CleanCategoryOfPlainPath("A >> B >> C");
  }

  lemma PathIsTrimmed()
    ensures Strip("A >> B >> C", Whitespace) == "A >> B >> C"
  {
    var text := "A >> B >> C";
    assert StripStart(text, Whitespace) == text;
    assert StripEnd(text, Whitespace) == text;
  }

  lemma PathIsPlain()
    ensures var text := "A >> B >> C";
            QuoteFree(text) && !NullLike(text) && !StartsWith(text, "[")
  {
    PathIsQuoteFree();
    PathIsNotMissing();
    assert "A >> B >> C"[0] != "["[0];
  }

  lemma PathIsQuoteFree()
    ensures QuoteFree("A >> B >> C")
  {
  }

  lemma PathIsNotMissing()
    ensures !NullLike("A >> B >> C")
  {
    LongTextIsNotMissing("A >> B >> C");
  }

  lemma PathFirstSegment()
    ensures FirstSegment("A >> B >> C") == "A "
  {
    var text := "A >> B >> C";
    assert text[1..] == " >> B >> C";
    assert text[1..][1..] == ">> B >> C";
    assert FirstSegment(">> B >> C") == [];
    assert FirstSegment(" >> B >> C") == " ";
  }

  lemma SegmentTrimmed()
    ensures Strip("A ", Whitespace) == "A"
  {
    SegmentStartTrimmed();
    SegmentEndTrimmed();
  }

  lemma SegmentStartTrimmed()
    ensures StripStart("A ", Whitespace) == "A "
  {
  }

  lemma SegmentEndTrimmed()
    ensures StripEnd("A ", Whitespace) == "A"
  {
    assert "A "[..1] == "A";
    assert IsSpace(' ');
    assert StripEnd("A", Whitespace) == "A";
  }

  /** `clean_category('["Clothing ') == "Clothing"`: the first segment of a
      list-style category tree, as the catalog stores it, loses its opening
      `[` and the quote after it together, and then its trailing space. */
  lemma CleanCategoryOfListSegment()
    ensures CleanCategory(Some("[\"Clothing ")) == "Clothing"
  {
    ListSegmentIsCleaned();
    ListSegmentUnwrapped();
    ClothingIsPlain();
    CutOfQuoteFree("Clothing");
    ClothingIsOneSegment();
    StripOfStripped("Clothing", Whitespace);
  }

  lemma ListSegmentIsCleaned()
    ensures CleanVal(Some("[\"Clothing ")) == "[\"Clothing"
  {
    ListSegmentTrimmed();
    ListSegmentIsNotMissing();
  }

  lemma ListSegmentTrimmed()
    ensures Strip("[\"Clothing ", Whitespace) == "[\"Clothing"
  {
    ListSegmentStartTrimmed();
    ListSegmentEndTrimmed();
  }

  lemma ListSegmentStartTrimmed()
    ensures StripStart("[\"Clothing ", Whitespace) == "[\"Clothing "
  {
    assert !IsSpace('[');
  }

  lemma ListSegmentEndTrimmed()
    ensures StripEnd("[\"Clothing ", Whitespace) == "[\"Clothing"
  {
    var text := "[\"Clothing ";
    var s := "[\"Clothing";
    assert text[..10] == s;
    assert IsSpace(text[10]);
    assert !IsSpace(s[9]);
    assert StripEnd(s, Whitespace) == s;
  }

  lemma ListSegmentIsNotMissing()
    ensures !NullLike("[\"Clothing")
  {
    LongTextIsNotMissing("[\"Clothing");
  }

  lemma ListSegmentUnwrapped()
    ensures DropListOpening("[\"Clothing") == "Clothing"
  {
    var s := "[\"Clothing";
    assert IsQuote(s[1]);
    assert s[2..] == "Clothing";
  }

  lemma ClothingIsPlain()
    ensures QuoteFree("Clothing") && IsStripped("Clothing", Whitespace)
  {
  }

  lemma ClothingIsOneSegment()
    ensures FirstSegment("Clothing") == "Clothing"
  {
    var c := "Clothing";
    assert forall i :: !SeparatorAt(c, i);
  }

  /** Every missing marker has at most four characters. */
  lemma LongTextIsNotMissing(s: string)
    requires |s| > 4
    ensures !NullLike(s)
  {
    assert |Lower(s)| > 4;
  }

  /** `clean_category("—") == "—"`: the dash is a value `clean_val` keeps, and
      `clean_category` hands it back unchanged. */
  lemma CleanCategoryOfDash()
    ensures CleanCategory(Some(Dash)) == Dash
  {
    DashIsKept();
  }

  /** `clean_val("—") == "—"`. */
  lemma DashIsKept()
    ensures CleanVal(Some(Dash)) == Dash
  {
    assert |Dash| == 1 && !IsSpace(Dash[0]);
    assert StripStart(Dash, Whitespace) == Dash;
    assert StripEnd(Dash, Whitespace) == Dash;
  }

  /** A quote followed later by a line break survives `clean_category`:
      `["'].*$` cannot match at that quote, since `.` stops at the line break
      and `$` does not hold before it. */
  lemma QuoteBeforeLineBreakSurvives()
    ensures CleanCategory(Some("a\"b\nc")) == "a\"b\nc"
    ensures !QuoteFree(CleanCategory(Some("a\"b\nc")))
  {
    BrokenCleansToItself();
    assert IsQuote("a\"b\nc"[1]);
  }

  lemma BrokenCleansToItself()
    ensures CleanCategory(Some("a\"b\nc")) == "a\"b\nc"
  {
    BrokenIsTrimmed();
    BrokenIsCleaned();
    CleanCategoryOfCleanText("a\"b\nc");
    BrokenCategoryText();
  }

  /** A value that is already trimmed and not missing goes straight to the
      category-text steps. */
  lemma CleanCategoryOfCleanText(text: string)
    requires Strip(text, Whitespace) == text && !NullLike(text) && text != Dash
    ensures CleanCategory(Some(text)) == if CategoryText(text) == [] then Dash else CategoryText(text)
  {
    assert CleanVal(Some(text)) == text;
  }

  lemma BrokenCategoryText()
    ensures CategoryText("a\"b\nc") == "a\"b\nc"
  {
    BrokenIsCleaned();
    BrokenCutKeepsAll();
    BrokenFirstSegment();
    BrokenStripSegment();
  }

  lemma BrokenIsCleaned()
    ensures var text := "a\"b\nc";
            !NullLike(text) && text != Dash && DropListOpening(text) == text
  {
    LongTextIsNotMissing("a\"b\nc");
  }

  lemma BrokenIsTrimmed()
    ensures Strip("a\"b\nc", Whitespace) == "a\"b\nc"
  {
    var text := "a\"b\nc";
    assert StripStart(text, Whitespace) == text;
    assert StripEnd(text, Whitespace) == text;
  }

  lemma BrokenCutKeepsAll()
    ensures CutAtQuote("a\"b\nc") == "a\"b\nc"
  {
    var text := "a\"b\nc";
    assert LineEnd(text, 2) == 3 by {
      assert LineEnd(text, 3) == 3;
    }
    assert FirstQuoteMatch(text, 5) == None;
    assert FirstQuoteMatch(text, 4) == None;
    assert FirstQuoteMatch(text, 3) == None;
    assert FirstQuoteMatch(text, 2) == None;
    assert FirstQuoteMatch(text, 1) == None;
    assert FirstQuoteMatch(text, 0) == None;
  }

  lemma BrokenFirstSegment()
    ensures FirstSegment("a\"b\nc") == "a\"b\nc"
  {
    var text := "a\"b\nc";
    assert forall i :: !SeparatorAt(text, i);
  }

  lemma BrokenStripSegment()
    ensures StripSegment("a\"b\nc") == "a\"b\nc"
  {
    var text := "a\"b\nc";
    BrokenIsTrimmed();
    BrokenHasNoOuterQuotes();
    StripOfStripped(text, OneOf({'"'}));
    StripOfStripped(text, OneOf({'\''}));
  }

  lemma BrokenHasNoOuterQuotes()
    ensures var text := "a\"b\nc";
            IsStripped(text, OneOf({'"'})) && IsStripped(text, OneOf({'\''}))
  {
    var text := "a\"b\nc";
    assert text[0] == 'a' && text[4] == 'c';
  }
}
