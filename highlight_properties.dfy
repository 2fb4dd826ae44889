/**
 * What the style list of `highlightKotlinCode` is: every range lies in the
 * text and holds a match of its category's regex, the list is grouped by
 * category in scan order with each group left to right and non-overlapping,
 * and no match of a category is missed outside that category's ranges.
 */
module HighlightProperties {
  import opened Wrappers
  import opened Patterns
  import opened Regex
  import opened AnnotatedText
  import opened CodeEditor

  /** The position of a category in the scan order. */
  function Rank(c: Category): nat {
    match c
    case Keyword => 0
    case StringLiteral => 1
    case Number => 2
    case Comment => 3
  }

  /**
   * Grouped by category in scan order, and within one category left to right
   * without overlap.
   */
  ghost predicate Ordered(h: seq<StyleRange>) {
    forall i, j :: 0 <= i < j < |h| ==>
      Rank(h[i].category) <= Rank(h[j].category) &&
      (h[i].category == h[j].category ==> h[i].end <= h[j].start)
  }

  /** The matches of one category: in the text, each a match, left to right, none missed. */
  lemma CategoryMatchesSpec(code: string, c: Category)
    ensures forall m :: m in CategoryMatches(code, c) ==>
      0 <= m.first <= m.last < |code| && IsMatch(code, c, m.first, m.last + 1)
    ensures Ascending(CategoryMatches(code, c))
  {
    PatternOfNonEmpty(c, code);
    forall m | m in CategoryMatches(code, c) ensures IsMatch(code, c, m.first, m.last + 1) {
      MatchAtSpec(code, c, m.first, m.last + 1);
    }
  }

  /** A range of one category's styles is that category's and comes from one of its matches. */
  lemma InStyles(c: Category, ms: seq<IntRange>, r: StyleRange)
    requires r in Styles(c, ms)
    ensures r.category == c
    ensures exists m :: m in ms && r.start == m.first && r.end == m.last + 1
  {
    var i :| 0 <= i < |Styles(c, ms)| && Styles(c, ms)[i] == r;
    assert ms[i] in ms;
  }

  /** A range of `Highlight(code)` comes from a match of its own category. */
  lemma InHighlight(code: string, r: StyleRange)
    requires r in Highlight(code)
    ensures exists m :: m in CategoryMatches(code, r.category) && r.start == m.first && r.end == m.last + 1
  {
    var ks := Styles(Keyword, CategoryMatches(code, Keyword));
    var ss := Styles(StringLiteral, CategoryMatches(code, StringLiteral));
    var ns := Styles(Number, CategoryMatches(code, Number));
    var cs := Styles(Comment, CategoryMatches(code, Comment));
    assert Highlight(code) == ks + ss + ns + cs;
    if r in ks {
      InStyles(Keyword, CategoryMatches(code, Keyword), r);
    } else if r in ss {
      InStyles(StringLiteral, CategoryMatches(code, StringLiteral), r);
    } else if r in ns {
      InStyles(Number, CategoryMatches(code, Number), r);
    } else {
      InStyles(Comment, CategoryMatches(code, Comment), r);
    }
  }

  /**
   * Every style range is non-empty and lies in the text, and it covers a
   * match of its category's regex.
   */
  lemma HighlightRangesMatch(code: string)
    ensures forall r :: r in Highlight(code) ==> 0 <= r.start < r.end <= |code|
    ensures forall r :: r in Highlight(code) ==> IsMatch(code, r.category, r.start, r.end)
  {
    forall r | r in Highlight(code)
      ensures 0 <= r.start < r.end <= |code| && IsMatch(code, r.category, r.start, r.end)
    {
      InHighlight(code, r);
      CategoryMatchesSpec(code, r.category);
    }
  }

  lemma StylesOrdered(c: Category, ms: seq<IntRange>)
    requires Ascending(ms)
    ensures Ordered(Styles(c, ms))
  {
  }

  lemma ConcatOrdered(x: seq<StyleRange>, y: seq<StyleRange>)
    requires Ordered(x) && Ordered(y)
    requires forall a, b :: a in x && b in y ==> Rank(a.category) < Rank(b.category)
    ensures Ordered(x + y)
  {
    var h := x + y;
    forall i, j | 0 <= i < j < |h|
      ensures Rank(h[i].category) <= Rank(h[j].category) &&
        (h[i].category == h[j].category ==> h[i].end <= h[j].start)
    {
      if i < |x| && j >= |x| {
        assert h[i] in x && h[j] == y[j - |x|] && y[j - |x|] in y;
      } else if i >= |x| {
        assert h[i] == y[i - |x|] && h[j] == y[j - |x|];
      }
    }
  }

  lemma AllOfCategory(c: Category, ms: seq<IntRange>)
    ensures forall r :: r in Styles(c, ms) ==> r.category == c
  {
    forall r | r in Styles(c, ms) ensures r.category == c {
      InStyles(c, ms, r);
    }
  }

  /**
   * The list holds all keyword ranges, then all string, number and comment
   * ranges, and within one category the ranges come left to right without
   * overlapping.
   */
  lemma HighlightOrdered(code: string)
    ensures Ordered(Highlight(code))
  {
    var ks := Styles(Keyword, CategoryMatches(code, Keyword));
    var ss := Styles(StringLiteral, CategoryMatches(code, StringLiteral));
    var ns := Styles(Number, CategoryMatches(code, Number));
    var cs := Styles(Comment, CategoryMatches(code, Comment));
    CategoryMatchesSpec(code, Keyword);
    CategoryMatchesSpec(code, StringLiteral);
    CategoryMatchesSpec(code, Number);
    CategoryMatchesSpec(code, Comment);
    StylesOrdered(Keyword, CategoryMatches(code, Keyword));
    StylesOrdered(StringLiteral, CategoryMatches(code, StringLiteral));
    StylesOrdered(Number, CategoryMatches(code, Number));
    StylesOrdered(Comment, CategoryMatches(code, Comment));
    AllOfCategory(Keyword, CategoryMatches(code, Keyword));
    AllOfCategory(StringLiteral, CategoryMatches(code, StringLiteral));
    AllOfCategory(Number, CategoryMatches(code, Number));
    AllOfCategory(Comment, CategoryMatches(code, Comment));
    ConcatOrdered(ks, ss);
    ConcatOrdered(ks + ss, ns);
    ConcatOrdered(ks + ss + ns, cs);
  }

  /**
   * Each of four lists appended together lies in the whole.  Stated apart so
   * that the membership facts are proved once, away from `Highlight`.
   */
  lemma InAppended<T>(a: seq<T>, b: seq<T>, c: seq<T>, d: seq<T>)
    ensures forall x :: x in a ==> x in a + b + c + d
    ensures forall x :: x in b ==> x in a + b + c + d
    ensures forall x :: x in c ==> x in a + b + c + d
    ensures forall x :: x in d ==> x in a + b + c + d
  {
  }

  /** The styles of one category all appear in the highlighted list. */
  lemma CategoryStylesInHighlight(code: string, c: Category)
    ensures forall r :: r in Styles(c, CategoryMatches(code, c)) ==> r in Highlight(code)
  {
    InAppended(Styles(Keyword, CategoryMatches(code, Keyword)), Styles(StringLiteral, CategoryMatches(code, StringLiteral)),
      Styles(Number, CategoryMatches(code, Number)), Styles(Comment, CategoryMatches(code, Comment)));
  }

  /**
   * No match is missed: a position that no range of category `c` covers
   * begins no match of `c`'s regex.
   */
  lemma HighlightComplete(code: string, c: Category, p: nat)
    requires p <= |code|
    requires forall r :: r in Highlight(code) && r.category == c ==> !(r.start <= p < r.end)
    ensures forall e :: !IsMatch(code, c, p, e)
  {
    var ms := CategoryMatches(code, c);
    var styles := Styles(c, ms);
    CategoryStylesInHighlight(code, c);
    forall i | 0 <= i < |ms| ensures !(ms[i].first <= p <= ms[i].last) {
      assert styles[i] in styles;
    }
    PatternOfNonEmpty(c, code);
    MatchesFromComplete(PatternOf(c), code, 0, p);
    assert PatternOf(c)(code, p) == MatchAt(code, c, p);
    NoMatchAt(code, c, p);
  }

  /** The converse view: wherever a match of category `c` begins, a range of `c` covers that position. */
  lemma MatchCovered(code: string, c: Category, p: nat, e: int)
    requires p <= |code| && IsMatch(code, c, p, e)
    ensures exists r :: r in Highlight(code) && r.category == c && r.start <= p < r.end
  {
    if forall r :: r in Highlight(code) && r.category == c ==> !(r.start <= p < r.end) {
      HighlightComplete(code, c, p);
      assert false;
    }
  }

  // ---------------------------------------------------------------------
  // What each category's ranges look like
  // ---------------------------------------------------------------------

  /** A style range lies inside the text and covers a match of its category's regex. */
  lemma RangeOfHighlightIsMatch(code: string, r: StyleRange)
    requires r in Highlight(code)
    ensures 0 <= r.start < r.end <= |code| && IsMatch(code, r.category, r.start, r.end)
  {
    HighlightRangesMatch(code);
  }

  /** A keyword range spells a listed keyword and has a word boundary at both ends. */
  ghost predicate KeywordRangeShape(code: string, r: StyleRange) {
    0 <= r.start <= r.end <= |code| && code[r.start..r.end] in Keywords() &&
    Boundary(code, r.start) && Boundary(code, r.end)
  }

  lemma KeywordRanges(code: string)
    ensures forall r :: r in Highlight(code) && r.category == Keyword ==> KeywordRangeShape(code, r)
  {
    forall r | r in Highlight(code) && r.category == Keyword ensures KeywordRangeShape(code, r) {
      RangeOfHighlightIsMatch(code, r);
      KeywordMatchHasShape(code, r);
    }
  }

  lemma KeywordMatchHasShape(code: string, r: StyleRange)
    requires KeywordMatch(code, r.start, r.end)
    ensures KeywordRangeShape(code, r)
  {
    KeywordMatchSpells(code, r.start, r.end);
    KeywordMatchBoundaries(code, r.start, r.end);
  }

  /** So `@Composable` is highlighted only right after a word character, since `@` is not one. */
  lemma AnnotationKeywordRanges(code: string)
    ensures forall r :: r in Highlight(code) && r.category == Keyword && 0 <= r.start < |code| && code[r.start] == '@' ==>
      WordAt(code, r.start - 1)
  {
    KeywordRanges(code);
  }

  /**
   * A string range runs from a quote to the next quote on the same line: at
   * least two characters, no quote and no line terminator in between.
   */
  lemma StringRanges(code: string)
    ensures forall r :: r in Highlight(code) && r.category == StringLiteral ==> StringMatch(code, r.start, r.end)
  {
    forall r | r in Highlight(code) && r.category == StringLiteral ensures StringMatch(code, r.start, r.end) {
      RangeOfHighlightIsMatch(code, r);
    }
  }

  /** A number range is all decimal digits, with no word character right before or right after it. */
  ghost predicate NumberRangeShape(code: string, r: StyleRange) {
    0 <= r.start < r.end <= |code| &&
    (forall j :: r.start <= j < r.end ==> IsDigit(code[j])) &&
    !WordAt(code, r.start - 1) && !WordAt(code, r.end)
  }

  lemma NumberRanges(code: string)
    ensures forall r :: r in Highlight(code) && r.category == Number ==> NumberRangeShape(code, r)
  {
    forall r | r in Highlight(code) && r.category == Number ensures NumberRangeShape(code, r) {
      RangeOfHighlightIsMatch(code, r);
      NumberMatchHasShape(code, r);
    }
  }

  lemma NumberMatchHasShape(code: string, r: StyleRange)
    requires NumberMatch(code, r.start, r.end)
    ensures NumberRangeShape(code, r)
  {
  }

  /**
   * A comment range starts with `//`, holds no line terminator and runs to
   * the end of its line: to the end of the text or to just before a line
   * terminator.
   */
  lemma CommentRanges(code: string)
    ensures forall r :: r in Highlight(code) && r.category == Comment ==> CommentMatch(code, r.start, r.end)
  {
    forall r | r in Highlight(code) && r.category == Comment ensures CommentMatch(code, r.start, r.end) {
      RangeOfHighlightIsMatch(code, r);
    }
  }
}
