/**
 * `highlightKotlinCode` and the gutter's line count of the web code editor.
 *
 * The highlighter appends the text unchanged to an annotated-string builder
 * and then runs the keyword, string, number and comment regexes over that
 * same text, one after the other, adding one span style per match over
 * `[range.first, range.last + 1)`.  Ranges of different categories may
 * overlap; nothing here resolves that.
 */
module CodeEditor {
  import opened Wrappers
  import opened Patterns
  import opened Regex
  import opened AnnotatedText
  import KotlinText

  /** The compiled regex of a category. */
  function PatternOf(c: Category): Pattern {
    (s: string, p: nat) => MatchAt(s, c, p)
  }

  lemma PatternOfNonEmpty(c: Category, s: string)
    ensures NonEmptyMatches(PatternOf(c), s)
  {
  }

  /** `regex.findAll(code)` for the regex of category `c`. */
  function CategoryMatches(code: string, c: Category): seq<IntRange> {
    PatternOfNonEmpty(c, code);
    Matches(PatternOf(c), code)
  }

  /** The span styles the `forEach` over a list of matches adds, in order. */
  function Styles(c: Category, ms: seq<IntRange>): seq<StyleRange> {
    seq(|ms|, i requires 0 <= i < |ms| => StyleRange(c, ms[i].first, ms[i].last + 1))
  }

  /** The span styles of the highlighted text: all keyword styles, then string, number and comment styles. */
  function Highlight(code: string): seq<StyleRange> {
    Styles(Keyword, CategoryMatches(code, Keyword)) +
    Styles(StringLiteral, CategoryMatches(code, StringLiteral)) +
    Styles(Number, CategoryMatches(code, Number)) +
    Styles(Comment, CategoryMatches(code, Comment))
  }

  /** `matches.forEach { addStyle(style, it.range.first, it.range.last + 1) }`, for matches `ms`. */
  method AddStyles(b: AnnotatedStringBuilder, c: Category, ms: seq<IntRange>)
    modifies b
    ensures b.text == old(b.text)
    ensures b.spanStyles == old(b.spanStyles) + Styles(c, ms)
  {
    for i := 0 to |ms|
      invariant b.text == old(b.text)
      invariant b.spanStyles == old(b.spanStyles) + Styles(c, ms[..i])
    {
      b.AddStyle(c, ms[i].first, ms[i].last + 1);
      assert Styles(c, ms[..i + 1]) == Styles(c, ms[..i]) + [StyleRange(c, ms[i].first, ms[i].last + 1)];
    }
    assert ms[..|ms|] == ms;
  }

  /**
   * Four lists appended one after the other to an empty list.  Stated apart
   * so that the sequence fact is proved once, away from `Highlight`.
   */
  lemma AppendedToEmpty<T>(a: seq<T>, b: seq<T>, c: seq<T>, d: seq<T>)
    ensures [] + a + b + c + d == a + b + c + d
  {
    assert [] + a == a;
  }

  /** `regex.findAll(code).forEach { addStyle(style, it.range.first, it.range.last + 1) }` for category `c`. */
  method StyleMatches(b: AnnotatedStringBuilder, code: string, c: Category)
    modifies b
    ensures b.text == old(b.text)
    ensures b.spanStyles == old(b.spanStyles) + Styles(c, CategoryMatches(code, c))
  {
    PatternOfNonEmpty(c, code);
    var ms := FindAll(PatternOf(c), code);
    AddStyles(b, c, ms);
  }

  /**
   * `highlightKotlinCode(code)`: the text comes out unchanged (so the identity
   * offset mapping is right) and carries the styles of `Highlight(code)`.
   */
  method HighlightKotlinCode(code: string) returns (r: AnnotatedString)
    ensures r.text == code
    ensures r.spanStyles == Highlight(code)
  {
    var b := new AnnotatedStringBuilder();
    b.Append(code);
    StyleMatches(b, code, Keyword);
    StyleMatches(b, code, StringLiteral);
    StyleMatches(b, code, Number);
    StyleMatches(b, code, Comment);
    AppendedToEmpty(Styles(Keyword, CategoryMatches(code, Keyword)), Styles(StringLiteral, CategoryMatches(code, StringLiteral)),
      Styles(Number, CategoryMatches(code, Number)), Styles(Comment, CategoryMatches(code, Comment)));
    r := b.ToAnnotatedString();
  }

  /** `content.split('\n').size`: the number of lines the gutter numbers. */
  function LineCount(content: string): (n: nat)
    ensures n == multiset(content)['\n'] + 1
  {
    KotlinText.SplitCount(content, '\n');
    |KotlinText.Split(content, '\n')|
  }
}
