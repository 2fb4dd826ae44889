/**
 * The four regular expressions of `highlightKotlinCode`, each written as a
 * recogniser: given the text and a start position, the end (exclusive) of the
 * match the regex engine takes there, if any.  Beside each recogniser stands a
 * declarative reading of the pattern (what a match of the regex is), and a
 * lemma shows that the two agree, in both directions.
 */
module Patterns {
  import opened Wrappers

  /** The categories the highlighter colours, one per regular expression. */
  datatype Category = Keyword | StringLiteral | Number | Comment

  // ---------------------------------------------------------------------
  // Character classes
  // ---------------------------------------------------------------------

  /** A word character as `\b` sees it: `[A-Za-z0-9_]`. */
  predicate IsWordChar(c: char) {
    ('a' <= c <= 'z') || ('A' <= c <= 'Z') || ('0' <= c <= '9') || c == '_'
  }

  /** `\d`: an ASCII decimal digit. */
  predicate IsDigit(c: char) {
    '0' <= c <= '9'
  }

  /** The characters `.` does not match: the line terminators. */
  predicate IsLineTerminator(c: char) {
    c == '\n' || c == '\r' || c == '\U{85}' || c == '\U{2028}' || c == '\U{2029}'
  }

  /** Position `q` holds a word character (positions outside the text do not). */
  predicate WordAt(s: string, q: int) {
    0 <= q < |s| && IsWordChar(s[q])
  }

  /** `\b` at position `p`: exactly one of the two characters around `p` is a word character. */
  predicate Boundary(s: string, p: int) {
    WordAt(s, p - 1) != WordAt(s, p)
  }

  /**
   * The first position at or after `i` whose character satisfies `stop`, or
   * `|s|` when there is none.
   */
  function ScanUntil(s: string, i: nat, stop: char -> bool): (q: nat)
    requires i <= |s|
    ensures i <= q <= |s|
    ensures forall j :: i <= j < q ==> !stop(s[j])
    ensures q < |s| ==> stop(s[q])
    decreases |s| - i
  {
    if i == |s| || stop(s[i]) then i else ScanUntil(s, i + 1, stop)
  }

  // ---------------------------------------------------------------------
  // Keywords: \b(package|import|...|@Composable)\b
  // ---------------------------------------------------------------------

  /** The keyword at index `i` of the list (the last one, `@Composable`, for every other `i`). */
  function KeywordAtIndex(i: int): string {
    if i == 0 then "package"
    else if i == 1 then "import"
    else if i == 2 then "class"
    else if i == 3 then "interface"
    else if i == 4 then "object"
    else if i == 5 then "val"
    else if i == 6 then "var"
    else if i == 7 then "fun"
    else if i == 8 then "return"
    else if i == 9 then "if"
    else if i == 10 then "else"
    else if i == 11 then "for"
    else if i == 12 then "while"
    else if i == 13 then "do"
    else if i == 14 then "when"
    else if i == 15 then "true"
    else if i == 16 then "false"
    else if i == 17 then "null"
    else if i == 18 then "this"
    else if i == 19 then "super"
    else if i == 20 then "try"
    else if i == 21 then "catch"
    else if i == 22 then "finally"
    else if i == 23 then "throw"
    else if i == 24 then "is"
    else if i == 25 then "in"
    else if i == 26 then "as"
    else if i == 27 then "break"
    else if i == 28 then "continue"
    else if i == 29 then "typealias"
    else if i == 30 then "constructor"
    else if i == 31 then "init"
    else if i == 32 then "companion"
    else if i == 33 then "override"
    else if i == 34 then "private"
    else if i == 35 then "protected"
    else if i == 36 then "public"
    else if i == 37 then "internal"
    else "@Composable"
  }

  /** The keyword list: the 39 alternatives of the keyword regex, in the order the alternation tries them. */
  function Keywords(): seq<string> {
    seq(39, i => KeywordAtIndex(i))
  }

  /** Keyword `k` is spelled at `p` with a word boundary before and after it. */
  predicate KeywordFits(s: string, p: int, k: string) {
    0 <= p && p + |k| <= |s| && s[p..p + |k|] == k && Boundary(s, p) && Boundary(s, p + |k|)
  }

  /**
   * The alternation over the list `ks` at `p`, from alternative `i` on: the
   * first keyword, in list order, that fits at `p` (a failing trailing `\b`
   * makes the engine backtrack into the next alternative); the result is
   * where its match ends.
   */
  function FirstKeyword(ks: seq<string>, s: string, p: nat, i: nat): (r: Option<nat>)
    requires i <= |ks|
    ensures r.Some? ==> exists j :: i <= j < |ks| && r.value == p + |ks[j]| && KeywordFits(s, p, ks[j])
    ensures r.None? <==> forall j :: i <= j < |ks| ==> !KeywordFits(s, p, ks[j])
    decreases |ks| - i
  {
    if i == |ks| then None
    else if KeywordFits(s, p, ks[i]) then Some(p + |ks[i]|)
    else FirstKeyword(ks, s, p, i + 1)
  }

  /** Some keyword of `ks` is spelled from `p` to `e`, between word boundaries. */
  ghost predicate ListedMatch(ks: seq<string>, s: string, p: int, e: int) {
    exists j :: 0 <= j < |ks| && e == p + |ks[j]| && KeywordFits(s, p, ks[j])
  }

  /** All characters of `k` from index `j` on are word characters. */
  predicate WordTail(k: string, j: nat)
    decreases |k| - j
  {
    j >= |k| || (IsWordChar(k[j]) && WordTail(k, j + 1))
  }

  lemma {:induction false} WordTailAt(k: string, j: nat, m: nat)
    requires WordTail(k, j) && j <= m < |k|
    ensures IsWordChar(k[m])
    decreases m - j
  {
    if j < m {
      WordTailAt(k, j + 1, m);
    }
  }

  /** Keyword `k` has at least two characters, and all of them after the first are word characters. */
  predicate Shaped(k: string) {
    |k| >= 2 && WordTail(k, 1)
  }

  /** Every keyword of `ks` is shaped. */
  ghost predicate WellShaped(ks: seq<string>) {
    forall i :: 0 <= i < |ks| ==> Shaped(ks[i])
  }

  lemma FitNotShorter(s: string, p: int, k1: string, k2: string)
    requires Shaped(k1) && Shaped(k2)
    requires KeywordFits(s, p, k1) && KeywordFits(s, p, k2)
    ensures |k1| >= |k2|
  {
    if |k1| < |k2| {
      var m := p + |k1|;
      assert s[m] == k2[|k1|] by {
        assert s[p..p + |k2|][|k1|] == k2[|k1|];
      }
      WordTailAt(k2, 1, |k1|);
      assert s[m - 1] == k1[|k1| - 1] by {
        assert s[p..p + |k1|][|k1| - 1] == k1[|k1| - 1];
      }
      WordTailAt(k1, 1, |k1| - 1);
      assert false;
    }
  }

  /**
   * In a well-shaped list at most one keyword length fits at a position: a
   * shorter keyword fitting at `p` would end at a boundary lying inside a
   * longer one, between two of its word characters.
   */
  lemma FitsUnique(ks: seq<string>, s: string, p: int, i1: int, i2: int)
    requires WellShaped(ks) && 0 <= i1 < |ks| && 0 <= i2 < |ks|
    requires KeywordFits(s, p, ks[i1]) && KeywordFits(s, p, ks[i2])
    ensures |ks[i1]| == |ks[i2]|
  {
    FitNotShorter(s, p, ks[i1], ks[i2]);
    FitNotShorter(s, p, ks[i2], ks[i1]);
  }

  /** In a well-shaped list the alternation finds the one listed match there is. */
  lemma FirstKeywordFinds(ks: seq<string>, s: string, p: nat, e: int)
    requires WellShaped(ks) && ListedMatch(ks, s, p, e)
    ensures FirstKeyword(ks, s, p, 0) == Some(e)
  {
    var j :| 0 <= j < |ks| && e == p + |ks[j]| && KeywordFits(s, p, ks[j]);
    var r := FirstKeyword(ks, s, p, 0);
    assert r.Some?;
    var j2 :| 0 <= j2 < |ks| && r.value == p + |ks[j2]| && KeywordFits(s, p, ks[j2]);
    FitsUnique(ks, s, p, j, j2);
  }

  /** In a well-shaped list a match is at least two characters long. */
  lemma FirstKeywordLength(ks: seq<string>, s: string, p: nat)
    requires WellShaped(ks)
    ensures FirstKeyword(ks, s, p, 0).Some? ==> p + 2 <= FirstKeyword(ks, s, p, 0).value <= |s|
  {
  }

  /** Inside a match from a well-shaped list, every character after the first is a word character. */
  lemma ListedMatchWordTail(ks: seq<string>, s: string, p: int, e: int, q: int)
    requires WellShaped(ks) && ListedMatch(ks, s, p, e) && p < q < e
    ensures IsWordChar(s[q])
  {
    var j :| 0 <= j < |ks| && e == p + |ks[j]| && KeywordFits(s, p, ks[j]);
    WordTailAt(ks[j], 1, q - p);
    assert s[q] == s[p..e][q - p];
  }

  /** A listed match spells one of the keywords of the list. */
  lemma ListedMatchSpells(ks: seq<string>, s: string, p: int, e: int)
    requires ListedMatch(ks, s, p, e)
    ensures 0 <= p <= e <= |s| && s[p..e] in ks
  {
    var j :| 0 <= j < |ks| && e == p + |ks[j]| && KeywordFits(s, p, ks[j]);
    assert s[p..e] == ks[j];
  }

  // The eight lemmas below check the shape of the keywords five at a time.
  // They are split only so that each one stays a small proof for the solver.

  lemma ShapedIn0(i: int)
    requires 0 <= i < 5
    ensures Shaped(KeywordAtIndex(i))
  {
    if i == 0 { assert KeywordAtIndex(0) == "package"; assert Shaped("package"); }
    else if i == 1 { assert KeywordAtIndex(1) == "import"; assert Shaped("import"); }
    else if i == 2 { assert KeywordAtIndex(2) == "class"; assert Shaped("class"); }
    else if i == 3 { assert KeywordAtIndex(3) == "interface"; assert Shaped("interface"); }
    else if i == 4 { assert KeywordAtIndex(4) == "object"; assert Shaped("object"); }
  }

  lemma ShapedIn5(i: int)
    requires 5 <= i < 10
    ensures Shaped(KeywordAtIndex(i))
  {
    if i == 5 { assert KeywordAtIndex(5) == "val"; assert Shaped("val"); }
    else if i == 6 { assert KeywordAtIndex(6) == "var"; assert Shaped("var"); }
    else if i == 7 { assert KeywordAtIndex(7) == "fun"; assert Shaped("fun"); }
    else if i == 8 { assert KeywordAtIndex(8) == "return"; assert Shaped("return"); }
    else if i == 9 { assert KeywordAtIndex(9) == "if"; assert Shaped("if"); }
  }

  lemma ShapedIn10(i: int)
    requires 10 <= i < 15
    ensures Shaped(KeywordAtIndex(i))
  {
    if i == 10 { assert KeywordAtIndex(10) == "else"; assert Shaped("else"); }
    else if i == 11 { assert KeywordAtIndex(11) == "for"; assert Shaped("for"); }
    else if i == 12 { assert KeywordAtIndex(12) == "while"; assert Shaped("while"); }
    else if i == 13 { assert KeywordAtIndex(13) == "do"; assert Shaped("do"); }
    else if i == 14 { assert KeywordAtIndex(14) == "when"; assert Shaped("when"); }
  }

  lemma ShapedIn15(i: int)
    requires 15 <= i < 20
    ensures Shaped(KeywordAtIndex(i))
  {
    if i == 15 { assert KeywordAtIndex(15) == "true"; assert Shaped("true"); }
    else if i == 16 { assert KeywordAtIndex(16) == "false"; assert Shaped("false"); }
    else if i == 17 { assert KeywordAtIndex(17) == "null"; assert Shaped("null"); }
    else if i == 18 { assert KeywordAtIndex(18) == "this"; assert Shaped("this"); }
    else if i == 19 { assert KeywordAtIndex(19) == "super"; assert Shaped("super"); }
  }

  lemma ShapedIn20(i: int)
    requires 20 <= i < 25
    ensures Shaped(KeywordAtIndex(i))
  {
    if i == 20 { assert KeywordAtIndex(20) == "try"; assert Shaped("try"); }
    else if i == 21 { assert KeywordAtIndex(21) == "catch"; assert Shaped("catch"); }
    else if i == 22 { assert KeywordAtIndex(22) == "finally"; assert Shaped("finally"); }
    else if i == 23 { assert KeywordAtIndex(23) == "throw"; assert Shaped("throw"); }
    else if i == 24 { assert KeywordAtIndex(24) == "is"; assert Shaped("is"); }
  }

  lemma ShapedIn25(i: int)
    requires 25 <= i < 30
    ensures Shaped(KeywordAtIndex(i))
  {
    if i == 25 { assert KeywordAtIndex(25) == "in"; assert Shaped("in"); }
    else if i == 26 { assert KeywordAtIndex(26) == "as"; assert Shaped("as"); }
    else if i == 27 { assert KeywordAtIndex(27) == "break"; assert Shaped("break"); }
    else if i == 28 { assert KeywordAtIndex(28) == "continue"; assert Shaped("continue"); }
    else if i == 29 { assert KeywordAtIndex(29) == "typealias"; assert Shaped("typealias"); }
  }

  lemma ShapedIn30(i: int)
    requires 30 <= i < 35
    ensures Shaped(KeywordAtIndex(i))
  {
    if i == 30 { assert KeywordAtIndex(30) == "constructor"; assert Shaped("constructor"); }
    else if i == 31 { assert KeywordAtIndex(31) == "init"; assert Shaped("init"); }
    else if i == 32 { assert KeywordAtIndex(32) == "companion"; assert Shaped("companion"); }
    else if i == 33 { assert KeywordAtIndex(33) == "override"; assert Shaped("override"); }
    else if i == 34 { assert KeywordAtIndex(34) == "private"; assert Shaped("private"); }
  }

  lemma ShapedIn35(i: int)
    requires 35 <= i < 39
    ensures Shaped(KeywordAtIndex(i))
  {
    if i == 35 { assert KeywordAtIndex(35) == "protected"; assert Shaped("protected"); }
    else if i == 36 { assert KeywordAtIndex(36) == "public"; assert Shaped("public"); }
    else if i == 37 { assert KeywordAtIndex(37) == "internal"; assert Shaped("internal"); }
    else if i == 38 { assert KeywordAtIndex(38) == "@Composable"; assert Shaped("@Composable"); }
  }

  /** The keyword list of the highlighter is well shaped. */
  lemma KeywordsWellShaped()
    ensures WellShaped(Keywords())
  {
    forall i | 0 <= i < |Keywords()| ensures Shaped(Keywords()[i]) {
      assert Keywords()[i] == KeywordAtIndex(i);
      if i < 5 { ShapedIn0(i); }
      else if i < 10 { ShapedIn5(i); }
      else if i < 15 { ShapedIn10(i); }
      else if i < 20 { ShapedIn15(i); }
      else if i < 25 { ShapedIn20(i); }
      else if i < 30 { ShapedIn25(i); }
      else if i < 35 { ShapedIn30(i); }
      else { ShapedIn35(i); }
    }
  }

  /** A match of the keyword regex: a listed keyword spelled from `p` to `e`, between word boundaries. */
  ghost predicate KeywordMatch(s: string, p: int, e: int) {
    ListedMatch(Keywords(), s, p, e)
  }

  /** The keyword regex tried at `p`: where its match ends, which is a keyword match. */
  function KeywordAt(s: string, p: nat): (r: Option<nat>)
    ensures r.Some? ==> KeywordMatch(s, p, r.value)
  {
    FirstKeyword(Keywords(), s, p, 0)
  }

  /** A keyword match is at least two characters long. */
  lemma KeywordAtLength(s: string, p: nat)
    ensures KeywordAt(s, p).Some? ==> p + 2 <= KeywordAt(s, p).value <= |s|
  {
    KeywordsWellShaped();
    FirstKeywordLength(Keywords(), s, p);
  }

  /** The keyword regex matches at `p` up to `e` exactly when a listed keyword spans `p` to `e` between word boundaries. */
  lemma KeywordAtSpec(s: string, p: nat, e: int)
    ensures KeywordAt(s, p) == Some(e) <==> KeywordMatch(s, p, e)
  {
    if KeywordMatch(s, p, e) {
      KeywordsWellShaped();
      FirstKeywordFinds(Keywords(), s, p, e);
    }
  }

  /** A keyword match spells one of the listed keywords. */
  lemma KeywordMatchSpells(s: string, p: int, e: int)
    requires KeywordMatch(s, p, e)
    ensures 0 <= p <= e <= |s| && s[p..e] in Keywords()
  {
    ListedMatchSpells(Keywords(), s, p, e);
  }

  /** A keyword match lies in the text, with a word boundary at both ends. */
  lemma KeywordMatchBoundaries(s: string, p: int, e: int)
    requires KeywordMatch(s, p, e)
    ensures 0 <= p <= e <= |s| && Boundary(s, p) && Boundary(s, e)
  {
  }

  /** Inside a keyword match, every character after the first is a word character. */
  lemma KeywordMatchWordTail(s: string, p: int, e: int, q: int)
    requires KeywordMatch(s, p, e) && p < q < e
    ensures IsWordChar(s[q])
  {
    KeywordsWellShaped();
    ListedMatchWordTail(Keywords(), s, p, e, q);
  }

  // ---------------------------------------------------------------------
  // Strings: "(.*?)"
  // ---------------------------------------------------------------------

  predicate StopsString(c: char) {
    c == '"' || IsLineTerminator(c)
  }

  /** A match of the string regex: from a quote to the next quote, with no line terminator between. */
  ghost predicate StringMatch(s: string, p: int, e: int) {
    0 <= p && p + 2 <= e <= |s| && s[p] == '"' && s[e - 1] == '"' &&
    forall j :: p < j < e - 1 ==> s[j] != '"' && !IsLineTerminator(s[j])
  }

  /**
   * The string regex tried at `p`: after the opening quote the lazy `.*?`
   * stops at the first quote; a line terminator before it means no match.
   */
  function StringAt(s: string, p: nat): (r: Option<nat>)
    ensures r.Some? ==> StringMatch(s, p, r.value)
  {
    if p < |s| && s[p] == '"' then
      var q := ScanUntil(s, p + 1, StopsString);
      if q < |s| && s[q] == '"' then Some(q + 1) else None
    else None
  }

  lemma StringAtSpec(s: string, p: nat, e: int)
    ensures StringAt(s, p) == Some(e) <==> StringMatch(s, p, e)
  {
    if StringMatch(s, p, e) {
      var q := ScanUntil(s, p + 1, StopsString);
      assert StopsString(s[e - 1]);
      assert q == e - 1;
    }
  }

  // ---------------------------------------------------------------------
  // Numbers: \b\d+\b
  // ---------------------------------------------------------------------

  predicate NotDigit(c: char) {
    !IsDigit(c)
  }

  /** A match of the number regex: a non-empty run of digits between word boundaries. */
  ghost predicate NumberMatch(s: string, p: int, e: int) {
    0 <= p < e <= |s| && (forall j :: p <= j < e ==> IsDigit(s[j])) &&
    Boundary(s, p) && Boundary(s, e)
  }

  /**
   * The number regex tried at `p`: the greedy `\d+` takes the whole digit
   * run, and backing off cannot help the trailing `\b`, since inside a digit
   * run there is no boundary.
   */
  function NumberAt(s: string, p: nat): (r: Option<nat>)
    ensures r.Some? ==> NumberMatch(s, p, r.value)
  {
    if p < |s| && IsDigit(s[p]) && Boundary(s, p) then
      var q := ScanUntil(s, p, NotDigit);
      if Boundary(s, q) then Some(q) else None
    else None
  }

  lemma NumberAtSpec(s: string, p: nat, e: int)
    ensures NumberAt(s, p) == Some(e) <==> NumberMatch(s, p, e)
  {
    if NumberMatch(s, p, e) {
      var q := ScanUntil(s, p, NotDigit);
      assert e <= q;
      if e < q {
        assert WordAt(s, e - 1) && WordAt(s, e);
      }
    }
  }

  // ---------------------------------------------------------------------
  // Comments: //.*
  // ---------------------------------------------------------------------

  /** A match of the comment regex: `//` and the rest of its line, up to a line terminator or the end of the text. */
  ghost predicate CommentMatch(s: string, p: int, e: int) {
    0 <= p && p + 2 <= e <= |s| && s[p] == '/' && s[p + 1] == '/' &&
    (forall j :: p + 2 <= j < e ==> !IsLineTerminator(s[j])) &&
    (e == |s| || IsLineTerminator(s[e]))
  }

  /** The comment regex tried at `p`: `//` and then the greedy `.*` up to the line's end. */
  function CommentAt(s: string, p: nat): (r: Option<nat>)
    ensures r.Some? ==> CommentMatch(s, p, r.value)
  {
    if p + 2 <= |s| && s[p] == '/' && s[p + 1] == '/' then
      Some(ScanUntil(s, p + 2, IsLineTerminator))
    else None
  }

  lemma CommentAtSpec(s: string, p: nat, e: int)
    ensures CommentAt(s, p) == Some(e) <==> CommentMatch(s, p, e)
  {
    if CommentMatch(s, p, e) {
      var q := ScanUntil(s, p + 2, IsLineTerminator);
      assert q == e;
    }
  }

  // ---------------------------------------------------------------------
  // The four patterns by category
  // ---------------------------------------------------------------------

  /** The regex of category `c` tried at `p`: the end of the match there, if any. */
  function MatchAt(s: string, c: Category, p: nat): (r: Option<nat>)
    ensures r.Some? ==> p < r.value <= |s|
  {
    match c
    case Keyword => KeywordAtLength(s, p); KeywordAt(s, p)
    case StringLiteral => StringAt(s, p)
    case Number => NumberAt(s, p)
    case Comment => CommentAt(s, p)
  }

  /** What a match of category `c` from `p` to `e` is. */
  ghost predicate IsMatch(s: string, c: Category, p: int, e: int) {
    match c
    case Keyword => KeywordMatch(s, p, e)
    case StringLiteral => StringMatch(s, p, e)
    case Number => NumberMatch(s, p, e)
    case Comment => CommentMatch(s, p, e)
  }

  /** The recogniser finds a match at `p` ending at `e` exactly when there is one. */
  lemma MatchAtSpec(s: string, c: Category, p: nat, e: int)
    ensures MatchAt(s, c, p) == Some(e) <==> IsMatch(s, c, p, e)
  {
    match c
    case Keyword => KeywordAtSpec(s, p, e);
    case StringLiteral => StringAtSpec(s, p, e);
    case Number => NumberAtSpec(s, p, e);
    case Comment => CommentAtSpec(s, p, e);
  }

  /** No match at `p` at all when the recogniser finds none. */
  lemma NoMatchAt(s: string, c: Category, p: nat)
    requires MatchAt(s, c, p).None?
    ensures forall e :: !IsMatch(s, c, p, e)
  {
    forall e ensures !IsMatch(s, c, p, e) {
      MatchAtSpec(s, c, p, e);
    }
  }
}
