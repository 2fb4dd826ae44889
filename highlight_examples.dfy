/**
 * Concrete inputs that pin down how `highlightKotlinCode` behaves on the
 * edge cases its regexes create.
 */
module HighlightExamples {
  import opened Wrappers
  import opened Patterns
  import opened AnnotatedText
  import opened CodeEditor
  import opened HighlightProperties

  /** `classroom` is not in the keyword list. */
  lemma ClassroomUnlisted()
    ensures "classroom" !in Keywords()
  {
    forall j | 0 <= j < |Keywords()| ensures Keywords()[j] != "classroom" {
      assert Keywords()[j] == KeywordAtIndex(j);
    }
  }

  lemma ClassroomBoundaries(q: int)
    requires 0 < q < 9
    ensures !Boundary("classroom", q)
  {
    assert IsWordChar("classroom"[q - 1]) && IsWordChar("classroom"[q]);
  }

  /** The only word boundaries of `classroom` are its two ends. */
  lemma ClassroomEnds(code: string, p: int, e: int)
    requires code == "classroom" && 0 <= p && p + 2 <= e <= |code| && Boundary(code, p) && Boundary(code, e)
    ensures code[p..e] == code
  {
    if 0 < p {
      ClassroomBoundaries(p);
    }
    if e < 9 {
      ClassroomBoundaries(e);
    }
  }

  /** No range of `classroom` has the shape of a keyword range. */
  lemma ClassroomNoKeywordShape(code: string, r: StyleRange)
    requires code == "classroom"
    ensures !KeywordRangeShape(code, r)
  {
    if KeywordRangeShape(code, r) {
      KeywordsWellShaped();
      assert r.end >= r.start + 2;
      ClassroomEnds(code, r.start, r.end);
      ClassroomUnlisted();
      assert false;
    }
  }

  /** Whole-word matching: `classroom` gets no keyword range, though it begins with `class`. */
  lemma ClassroomHasNoKeyword(code: string)
    requires code == "classroom"
    ensures forall r :: r in Highlight(code) ==> r.category != Keyword
  {
    KeywordRanges(code);
    forall r | r in Highlight(code) ensures r.category != Keyword {
      ClassroomNoKeywordShape(code, r);
    }
  }

  /** `@Composable` right after a word character is a keyword range ... */
  lemma ComposableAfterWord(code: string)
    requires code == "x@Composable"
    ensures KeywordAt(code, 1) == Some(12)
  {
    assert Keywords()[38] == "@Composable";
    assert code[1..12] == Keywords()[38];
    assert KeywordFits(code, 1, Keywords()[38]);
    KeywordAtSpec(code, 1, 12);
  }

  /** The only keyword match of `x@Composable` that covers the `@` is `@Composable` itself. */
  lemma ComposableOnlyMatch(code: string, p: int, e: int)
    requires code == "x@Composable" && KeywordMatch(code, p, e) && p <= 1 < e
    ensures p == 1 && e == 12
  {
    KeywordMatchBoundaries(code, p, e);
    if p < 1 {
      KeywordMatchWordTail(code, p, e, 1);
      assert false;
    }
    ComposableAfterWord(code);
    KeywordAtSpec(code, 1, e);
  }

  /** So the highlighted list of `x@Composable` holds the keyword range `[1, 12)`. */
  lemma ComposableStyled(code: string)
    requires code == "x@Composable"
    ensures StyleRange(Keyword, 1, 12) in Highlight(code)
  {
    ComposableAfterWord(code);
    KeywordAtSpec(code, 1, 12);
    MatchCovered(code, Keyword, 1, 12);
    var r :| r in Highlight(code) && r.category == Keyword && r.start <= 1 < r.end;
    RangeOfHighlightIsMatch(code, r);
    ComposableOnlyMatch(code, r.start, r.end);
  }

  /** `Composable` without its `@` is not in the keyword list. */
  lemma ComposableUnlisted()
    ensures "Composable" !in Keywords()
  {
    forall j | 0 <= j < |Keywords()| ensures Keywords()[j] != "Composable" {
      assert Keywords()[j] == KeywordAtIndex(j);
    }
  }

  /** The only word boundaries of ` @Composable` are in front of `C` and at the end. */
  lemma SpaceComposableBoundaries(q: int)
    requires 0 <= q < 12 && q != 2
    ensures !Boundary(" @Composable", q)
  {
    if q < 2 {
      assert !IsWordChar(" @Composable"[0]) && !IsWordChar(" @Composable"[1]);
    } else {
      assert IsWordChar(" @Composable"[q - 1]) && IsWordChar(" @Composable"[q]);
    }
  }

  /** No range of ` @Composable` has the shape of a keyword range. */
  lemma SpaceComposableNoKeywordShape(code: string, r: StyleRange)
    requires code == " @Composable"
    ensures !KeywordRangeShape(code, r)
  {
    if KeywordRangeShape(code, r) {
      KeywordsWellShaped();
      assert r.end >= r.start + 2;
      if r.start != 2 {
        SpaceComposableBoundaries(r.start);
      }
      if r.end < 12 {
        SpaceComposableBoundaries(r.end);
      }
      ComposableUnlisted();
      assert false;
    }
  }

  /**
   * ... but not after a space, where there is no word boundary in front of
   * `@`: the keyword regex fails there, and the text gets no keyword range.
   */
  lemma ComposableAfterSpace(code: string)
    requires code == " @Composable"
    ensures KeywordAt(code, 1) == None
    ensures forall r :: r in Highlight(code) ==> r.category != Keyword
  {
    assert !Boundary(code, 1);
    KeywordRanges(code);
    forall r | r in Highlight(code) ensures r.category != Keyword {
      SpaceComposableNoKeywordShape(code, r);
    }
  }

  /** The empty text gets no range at all. */
  lemma EmptyTextUnstyled()
    ensures Highlight("") == []
  {
    if Highlight("") != [] {
      RangeOfHighlightIsMatch("", Highlight("")[0]);
      assert false;
    }
  }

  // ---------------------------------------------------------------------
  // An unterminated string
  // ---------------------------------------------------------------------

  lemma OneQuote(code: string, q: int)
    requires code == "val s = \"abc" && 0 <= q < |code| && code[q] == '"'
    ensures q == 8
  {
  }

  /** An unterminated quote gets no string range at all, not one running to the end of the text. */
  lemma UnterminatedQuoteNotString(code: string)
    requires code == "val s = \"abc"
    ensures forall r :: r in Highlight(code) ==> r.category != StringLiteral
  {
    forall r | r in Highlight(code) ensures r.category != StringLiteral {
      RangeOfHighlightIsMatch(code, r);
      if r.category == StringLiteral {
        NoStringMatch(code, r.start, r.end);
        assert false;
      }
    }
  }

  lemma NoStringMatch(code: string, p: int, e: int)
    requires code == "val s = \"abc"
    ensures !StringMatch(code, p, e)
  {
    if StringMatch(code, p, e) {
      OneQuote(code, p);
      OneQuote(code, e - 1);
      assert false;
    }
  }

  // ---------------------------------------------------------------------
  // A line comment followed by another line
  // ---------------------------------------------------------------------

  lemma CommentLineFacts(code: string, q: int)
    requires code == "x = 1 // comment\ny = 2" && 0 <= q < |code|
    ensures code[q] == '/' ==> q == 6 || q == 7
    ensures IsLineTerminator(code[q]) ==> q == 16
  {
  }

  /** The only comment match of the text is the first line's comment. */
  lemma FirstLineCommentOnly(code: string, p: int, e: int)
    requires code == "x = 1 // comment\ny = 2" && CommentMatch(code, p, e)
    ensures p == 6 && e == 16
  {
    CommentLineFacts(code, p);
    CommentLineFacts(code, p + 1);
    if e < |code| {
      CommentLineFacts(code, e);
    }
    assert IsLineTerminator(code[16]);
  }

  /** Every comment range of the text is the first line's comment. */
  lemma OnlyFirstLineComment(code: string)
    requires code == "x = 1 // comment\ny = 2"
    ensures forall r :: r in Highlight(code) && r.category == Comment ==> r.start == 6 && r.end == 16
  {
    forall r | r in Highlight(code) && r.category == Comment ensures r.start == 6 && r.end == 16 {
      RangeOfHighlightIsMatch(code, r);
      FirstLineCommentOnly(code, r.start, r.end);
    }
  }

  lemma FirstLineCommentStyled(code: string)
    requires code == "x = 1 // comment\ny = 2"
    ensures StyleRange(Comment, 6, 16) in Highlight(code)
  {
    assert CommentMatch(code, 6, 16);
    MatchCovered(code, Comment, 6, 16);
    OnlyFirstLineComment(code);
  }

  /** The only number match of the text that covers the `2` is the `2` itself. */
  lemma SecondLineNumberOnly(code: string, p: int, e: int)
    requires code == "x = 1 // comment\ny = 2" && NumberMatch(code, p, e) && p <= 21 < e
    ensures p == 21 && e == 22
  {
    assert |code| == 22 && !IsDigit(code[20]);
  }

  lemma SecondLineNumberStyled(code: string)
    requires code == "x = 1 // comment\ny = 2"
    ensures StyleRange(Number, 21, 22) in Highlight(code)
  {
    assert NumberMatch(code, 21, 22);
    MatchCovered(code, Number, 21, 22);
    var rn :| rn in Highlight(code) && rn.category == Number && rn.start <= 21 < rn.end;
    RangeOfHighlightIsMatch(code, rn);
    SecondLineNumberOnly(code, rn.start, rn.end);
  }

  /**
   * `x = 1 // comment` and then `y = 2` on the next line: the comment range
   * stops at the end of the first line, and the `2` of the second line still
   * gets its number range.
   */
  lemma LineCommentStopsAtNewline(code: string)
    requires code == "x = 1 // comment\ny = 2"
    ensures forall r :: r in Highlight(code) && r.category == Comment ==> r.start == 6 && r.end == 16
    ensures StyleRange(Comment, 6, 16) in Highlight(code)
    ensures StyleRange(Number, 21, 22) in Highlight(code)
  {
    OnlyFirstLineComment(code);
    FirstLineCommentStyled(code);
    SecondLineNumberStyled(code);
  }

  // ---------------------------------------------------------------------
  // A keyword inside a string
  // ---------------------------------------------------------------------

  lemma QuotedKeywordFacts(code: string, q: int)
    requires code == "val x = \"class\"" && 0 <= q <= |code|
    ensures q < |code| && code[q] == '"' ==> q == 8 || q == 14
    ensures Boundary(code, q) ==> q in {0, 3, 4, 5, 9, 14}
  {
  }

  /** The only keyword match covering position 9 of `val x = "class"` is `class` itself. */
  lemma QuotedKeywordRange(code: string, p: int, e: int)
    requires code == "val x = \"class\""
    requires KeywordMatch(code, p, e) && p <= 9 < e
    ensures p == 9 && e == 14
  {
    KeywordMatchBoundaries(code, p, e);
    QuotedKeywordFacts(code, p);
    QuotedKeywordFacts(code, e);
    if p < 8 {
      KeywordMatchWordTail(code, p, e, 8);
    }
  }

  /** The only string match covering position 8 of `val x = "class"` is the quoted run. */
  lemma QuotedStringRange(code: string, p: int, e: int)
    requires code == "val x = \"class\""
    requires StringMatch(code, p, e) && p <= 8 < e
    ensures p == 8 && e == 15
  {
    QuotedKeywordFacts(code, p);
    QuotedKeywordFacts(code, e - 1);
  }

  lemma QuotedClassIsKeywordMatch(code: string)
    requires code == "val x = \"class\""
    ensures KeywordMatch(code, 9, 14)
  {
    assert Keywords()[2] == "class";
    assert code[9..14] == Keywords()[2];
    assert KeywordFits(code, 9, Keywords()[2]);
  }

  lemma QuotedClassStyled(code: string)
    requires code == "val x = \"class\""
    ensures StyleRange(Keyword, 9, 14) in Highlight(code)
  {
    QuotedClassIsKeywordMatch(code);
    MatchCovered(code, Keyword, 9, 14);
    var rk :| rk in Highlight(code) && rk.category == Keyword && rk.start <= 9 < rk.end;
    RangeOfHighlightIsMatch(code, rk);
    QuotedKeywordRange(code, rk.start, rk.end);
  }

  lemma QuotedRunStyled(code: string)
    requires code == "val x = \"class\""
    ensures StyleRange(StringLiteral, 8, 15) in Highlight(code)
  {
    assert StringMatch(code, 8, 15);
    MatchCovered(code, StringLiteral, 8, 15);
    var rs :| rs in Highlight(code) && rs.category == StringLiteral && rs.start <= 8 < rs.end;
    RangeOfHighlightIsMatch(code, rs);
    QuotedStringRange(code, rs.start, rs.end);
  }

  /**
   * `val x = "class"`: the word inside the quotes gets a keyword range and
   * the quoted run a string range over it; the two overlap and both stay.
   */
  lemma KeywordInsideString(code: string)
    requires code == "val x = \"class\""
    ensures StyleRange(Keyword, 9, 14) in Highlight(code)
    ensures StyleRange(StringLiteral, 8, 15) in Highlight(code)
  {
    QuotedClassStyled(code);
    QuotedRunStyled(code);
  }
}
