# Kotlin syntax highlighting of the web code editor

This project models `highlightKotlinCode`, the highlighter behind the web
(Wasm) code editor of PlayWithCompose, and the editor gutter's line count.

The highlighter appends the editor text unchanged to an annotated-string
builder. It then runs four regular expressions over that same text, one after
the other, in this order:

- keywords: `\b(package|import|…|@Composable)\b`, 39 alternatives;
- double-quoted strings: `"(.*?)"`;
- numbers: `\b\d+\b`;
- line comments: `//.*`.

Each regex goes through `findAll`. For every match, the code adds one span
style over `[range.first, range.last + 1)`, coloured by its category.

The gutter shows `content.split('\n').size` line numbers.

Layout of the model:

- `patterns.dfy` (module `Patterns`): each regex as a recogniser. A recogniser
  takes the text and a position and returns where the match the regex engine
  takes there ends, if it takes one. Each recogniser comes with a declarative
  reading of what a match is (`KeywordMatch`, `StringMatch`, `NumberMatch`,
  `CommentMatch`), and a lemma proves that recogniser and reading agree in
  both directions.
  - The alternation `FirstKeyword` tries the keywords in list order. A failing
    trailing `\b` makes the engine backtrack into the next alternative.
  - The lazy `.*?` stops at the first quote, and a line terminator before that
    quote means there is no match.
  - `\d+` takes the whole digit run.
  - `.*` runs to the end of the line.
- `regex.dfy` (module `Regex`): `find` and `findAll` for any pattern whose
  matches are never empty. `FindAll` is the search loop, proved equal to the
  recursive `Matches`. The lemmas about `Matches` say that every result is a
  match, that results come left to right without overlap, and that no match
  is skipped.
- `annotated_string.dfy` (module `AnnotatedText`): the builder as a class whose
  `Append` and `AddStyle` methods change its text and style list in place.
  Compose's `toAnnotatedString` is modelled as a snapshot of the builder's two
  fields, the text and the style list.
- `code_editor.dfy` (module `CodeEditor`):
  - the four `findAll(...).forEach { addStyle(...) }` loops, as methods on the
    builder;
  - `HighlightKotlinCode`, proved to return the text unchanged and the style
    list `Highlight(code)`;
  - the line count, through the model of `split` in `kotlin_text.dfy`.
- `highlight_properties.dfy` (module `HighlightProperties`): what
  `Highlight(code)` is, for every text.
- `highlight_examples.dfy` (module `HighlightExamples`): concrete texts that
  pin down the edge cases the regexes create.

How the model reads the code:

- `\b` uses the ASCII word class `[A-Za-z0-9_]`.
- `.` does not match the line terminators `\n`, `\r`, U+0085, U+2028 and
  U+2029.
- Positions are indices into a Dafny `string`, one per character.

The highlighter never resolves overlaps. It only appends ranges, category
after category, so overlapping ranges stay in the list: in `val x = "class"`
both the keyword range of `class` and the string range of the quoted run are
recorded (`HighlightExamples.KeywordInsideString`). It fills no gaps with a
default style and merges no neighbouring ranges.

An unterminated `"` gets no string range at all: with no closing quote on its
line, the string regex does not match there
(`HighlightExamples.UnterminatedQuoteNotString`).

## Model

| member | source | states |
|---|---|---|
| `Patterns.FirstKeyword` | composeApp/src/wasmJsMain/kotlin/com/helloanwar/playwithcompose/ui/editor/CodeEditor.wasmJs.kt:123 | the alternation at a position succeeds only with a listed keyword spelled there between word boundaries, and fails exactly when no keyword from the current alternative on fits |
| `Patterns.FitsUnique` | composeApp/src/wasmJsMain/kotlin/com/helloanwar/playwithcompose/ui/editor/CodeEditor.wasmJs.kt:115-123 | in a list of keywords whose characters after the first are word characters, two keywords fitting at one position have the same length, so alternative order never changes the match found |
| `Patterns.FirstKeywordFinds` | composeApp/src/wasmJsMain/kotlin/com/helloanwar/playwithcompose/ui/editor/CodeEditor.wasmJs.kt:123 | when some keyword of such a list fits at a position, the alternation returns exactly its end |
| `Patterns.KeywordsWellShaped` | composeApp/src/wasmJsMain/kotlin/com/helloanwar/playwithcompose/ui/editor/CodeEditor.wasmJs.kt:115-121 | every one of the 39 keywords has at least two characters, and all characters after the first are word characters (only `@Composable` starts with a non-word character) |
| `Patterns.KeywordAt` | composeApp/src/wasmJsMain/kotlin/com/helloanwar/playwithcompose/ui/editor/CodeEditor.wasmJs.kt:123 | the keyword recogniser reports an end only where a listed keyword is spelled from the position to that end between word boundaries |
| `Patterns.KeywordAtSpec` | composeApp/src/wasmJsMain/kotlin/com/helloanwar/playwithcompose/ui/editor/CodeEditor.wasmJs.kt:115-123 | the keyword regex matches from `p` to `e` if and only if a listed keyword is spelled from `p` to `e` with a word boundary at both ends |
| `Patterns.KeywordMatchSpells` | composeApp/src/wasmJsMain/kotlin/com/helloanwar/playwithcompose/ui/editor/CodeEditor.wasmJs.kt:115-123 | a keyword match lies in the text and spells an entry of the keyword list |
| `Patterns.KeywordMatchBoundaries` | composeApp/src/wasmJsMain/kotlin/com/helloanwar/playwithcompose/ui/editor/CodeEditor.wasmJs.kt:123 | a keyword match has a word boundary at its start and at its end |
| `Patterns.KeywordMatchWordTail` | composeApp/src/wasmJsMain/kotlin/com/helloanwar/playwithcompose/ui/editor/CodeEditor.wasmJs.kt:115-123 | every character of a keyword match after its first is a word character |
| `Patterns.StringAt` | composeApp/src/wasmJsMain/kotlin/com/helloanwar/playwithcompose/ui/editor/CodeEditor.wasmJs.kt:129 | the string recogniser reports an end only where a quote at the position is closed by the first later quote, with no line terminator between them |
| `Patterns.StringAtSpec` | composeApp/src/wasmJsMain/kotlin/com/helloanwar/playwithcompose/ui/editor/CodeEditor.wasmJs.kt:129 | the string regex matches from `p` to `e` if and only if there is a quote at `p` and at `e - 1`, with no quote and no line terminator between them |
| `Patterns.NumberAt` | composeApp/src/wasmJsMain/kotlin/com/helloanwar/playwithcompose/ui/editor/CodeEditor.wasmJs.kt:135 | the number recogniser reports an end only for a non-empty digit run with a word boundary at both ends |
| `Patterns.NumberAtSpec` | composeApp/src/wasmJsMain/kotlin/com/helloanwar/playwithcompose/ui/editor/CodeEditor.wasmJs.kt:135 | the number regex matches from `p` to `e` if and only if `[p, e)` is a non-empty run of digits with a word boundary at both ends |
| `Patterns.CommentAt` | composeApp/src/wasmJsMain/kotlin/com/helloanwar/playwithcompose/ui/editor/CodeEditor.wasmJs.kt:141 | the comment recogniser reports an end only where `//` starts at the position and the end is the first line terminator after it, or the end of the text |
| `Patterns.CommentAtSpec` | composeApp/src/wasmJsMain/kotlin/com/helloanwar/playwithcompose/ui/editor/CodeEditor.wasmJs.kt:141 | the comment regex matches from `p` to `e` if and only if `//` is at `p`, no line terminator follows it before `e`, and `e` is the end of the text or a line terminator |
| `Patterns.MatchAt` | composeApp/src/wasmJsMain/kotlin/com/helloanwar/playwithcompose/ui/editor/CodeEditor.wasmJs.kt:123-141 | the match of every one of the four regexes is non-empty and stays inside the text, so `findAll` always advances |
| `Patterns.MatchAtSpec` | composeApp/src/wasmJsMain/kotlin/com/helloanwar/playwithcompose/ui/editor/CodeEditor.wasmJs.kt:123-141 | for each category, the recogniser finds a match from `p` to `e` if and only if one exists |
| `Patterns.NoMatchAt` | composeApp/src/wasmJsMain/kotlin/com/helloanwar/playwithcompose/ui/editor/CodeEditor.wasmJs.kt:123-141 | when the recogniser fails at `p`, no match of that category begins at `p` |
| `Regex.Find` | composeApp/src/wasmJsMain/kotlin/com/helloanwar/playwithcompose/ui/editor/CodeEditor.wasmJs.kt:124 | the search from `start` returns the leftmost match at or after `start`, with no match starting between `start` and it; with no result, no position from `start` on begins a match |
| `Regex.Matches` | composeApp/src/wasmJsMain/kotlin/com/helloanwar/playwithcompose/ui/editor/CodeEditor.wasmJs.kt:124 | the ranges `findAll` yields are matches of the pattern inside the text, come left to right without overlapping, and leave uncovered no position where a match begins |
| `Regex.FindAll` | composeApp/src/wasmJsMain/kotlin/com/helloanwar/playwithcompose/ui/editor/CodeEditor.wasmJs.kt:124 | the loop that searches again just after each match returns exactly `Matches` |
| `Regex.MatchesFromSound` | composeApp/src/wasmJsMain/kotlin/com/helloanwar/playwithcompose/ui/editor/CodeEditor.wasmJs.kt:124 | every range `findAll` yields once the search has reached `start` lies inside the text from `start` on and is a match of the pattern |
| `Regex.MatchesFromAscending` | composeApp/src/wasmJsMain/kotlin/com/helloanwar/playwithcompose/ui/editor/CodeEditor.wasmJs.kt:124 | the ranges `findAll` yields come strictly left to right and are pairwise disjoint |
| `Regex.MatchesFromComplete` | composeApp/src/wasmJsMain/kotlin/com/helloanwar/playwithcompose/ui/editor/CodeEditor.wasmJs.kt:124 | a position inside none of the yielded ranges begins no match, so `findAll` skips nothing |
| `AnnotatedText.AnnotatedStringBuilder.constructor` | composeApp/src/wasmJsMain/kotlin/com/helloanwar/playwithcompose/ui/editor/CodeEditor.wasmJs.kt:104 | `buildAnnotatedString` starts from an empty text with no styles |
| `AnnotatedText.AnnotatedStringBuilder.Append` | composeApp/src/wasmJsMain/kotlin/com/helloanwar/playwithcompose/ui/editor/CodeEditor.wasmJs.kt:105 | `append` extends the text by its argument and leaves the styles alone |
| `AnnotatedText.AnnotatedStringBuilder.AddStyle` | composeApp/src/wasmJsMain/kotlin/com/helloanwar/playwithcompose/ui/editor/CodeEditor.wasmJs.kt:125 | `addStyle` adds exactly one style at the end of the list and leaves the text alone |
| `CodeEditor.AddStyles` | composeApp/src/wasmJsMain/kotlin/com/helloanwar/playwithcompose/ui/editor/CodeEditor.wasmJs.kt:124-126 | the `forEach` adds one style `[first, last + 1)` per match, in match order, after the existing styles; the text is unchanged |
| `CodeEditor.StyleMatches` | composeApp/src/wasmJsMain/kotlin/com/helloanwar/playwithcompose/ui/editor/CodeEditor.wasmJs.kt:124-126 | one category's scan appends that category's styles for all its matches in the original text |
| `CodeEditor.HighlightKotlinCode` | composeApp/src/wasmJsMain/kotlin/com/helloanwar/playwithcompose/ui/editor/CodeEditor.wasmJs.kt:103-146 | the result's text equals the input character for character, which is what `OffsetMapping.Identity` relies on (lines 33-34); its styles are all keyword ranges, then all string, number and comment ranges, each scanned against the original text |
| `CodeEditor.LineCount` | composeApp/src/wasmJsMain/kotlin/com/helloanwar/playwithcompose/ui/editor/CodeEditor.wasmJs.kt:39 | the gutter shows one more line than the text has `'\n'` characters, so one line for empty text |
| `KotlinText.IndexOf` | composeApp/src/wasmJsMain/kotlin/com/helloanwar/playwithcompose/ui/editor/CodeEditor.wasmJs.kt:39 | the delimiter search `split` uses returns the first delimiter at or after `from`, or -1 when there is none |
| `KotlinText.SplitFromCount` | composeApp/src/wasmJsMain/kotlin/com/helloanwar/playwithcompose/ui/editor/CodeEditor.wasmJs.kt:39 | the pieces `split` cuts from `from` onwards are one more than the delimiters from `from` on |
| `KotlinText.SplitFromJoin` | composeApp/src/wasmJsMain/kotlin/com/helloanwar/playwithcompose/ui/editor/CodeEditor.wasmJs.kt:39 | joining the pieces cut from `from` onwards with the delimiter gives back the text from `from` on |
| `KotlinText.SplitFromPieces` | composeApp/src/wasmJsMain/kotlin/com/helloanwar/playwithcompose/ui/editor/CodeEditor.wasmJs.kt:39 | no piece cut from `from` onwards contains the delimiter |
| `KotlinText.SplitCount` | composeApp/src/wasmJsMain/kotlin/com/helloanwar/playwithcompose/ui/editor/CodeEditor.wasmJs.kt:39 | `split` on one character yields one piece more than there are delimiters |
| `KotlinText.SplitJoin` | composeApp/src/wasmJsMain/kotlin/com/helloanwar/playwithcompose/ui/editor/CodeEditor.wasmJs.kt:39 | joining the pieces with the delimiter gives the text back, and no piece contains the delimiter |
| `HighlightProperties.CategoryMatchesSpec` | composeApp/src/wasmJsMain/kotlin/com/helloanwar/playwithcompose/ui/editor/CodeEditor.wasmJs.kt:124-144 | each category's `findAll` over the code yields ranges `[first, last]` inside the text that are matches of that category's regex, left to right without overlap |
| `HighlightProperties.InStyles` | composeApp/src/wasmJsMain/kotlin/com/helloanwar/playwithcompose/ui/editor/CodeEditor.wasmJs.kt:124-126 | a style added by one category's `forEach` has that category and spans `[first, last + 1)` of one of its matches |
| `HighlightProperties.AllOfCategory` | composeApp/src/wasmJsMain/kotlin/com/helloanwar/playwithcompose/ui/editor/CodeEditor.wasmJs.kt:124-126 | every style one category's `forEach` adds has that category |
| `HighlightProperties.StylesOrdered` | composeApp/src/wasmJsMain/kotlin/com/helloanwar/playwithcompose/ui/editor/CodeEditor.wasmJs.kt:124-126 | the styles of one category come in the order of its matches, strictly increasing and disjoint |
| `HighlightProperties.InHighlight` | composeApp/src/wasmJsMain/kotlin/com/helloanwar/playwithcompose/ui/editor/CodeEditor.wasmJs.kt:124-144 | every range in the highlighted list spans `[first, last + 1)` of a match its own category's `findAll` yielded |
| `HighlightProperties.HighlightRangesMatch` | composeApp/src/wasmJsMain/kotlin/com/helloanwar/playwithcompose/ui/editor/CodeEditor.wasmJs.kt:124-144 | every recorded range satisfies `0 <= start < end <= |code|` and covers a match of its category's regex |
| `HighlightProperties.HighlightOrdered` | composeApp/src/wasmJsMain/kotlin/com/helloanwar/playwithcompose/ui/editor/CodeEditor.wasmJs.kt:124-144 | the list holds keyword, string, number and comment ranges in that group order; within one category the ranges are strictly increasing and disjoint |
| `HighlightProperties.HighlightComplete` | composeApp/src/wasmJsMain/kotlin/com/helloanwar/playwithcompose/ui/editor/CodeEditor.wasmJs.kt:124-144 | a position covered by no range of a category begins no match of that category's regex |
| `HighlightProperties.MatchCovered` | composeApp/src/wasmJsMain/kotlin/com/helloanwar/playwithcompose/ui/editor/CodeEditor.wasmJs.kt:124-144 | wherever a match of a category begins, some range of that category covers that position |
| `HighlightProperties.KeywordRanges` | composeApp/src/wasmJsMain/kotlin/com/helloanwar/playwithcompose/ui/editor/CodeEditor.wasmJs.kt:115-126 | every keyword range spells an entry of the keyword list and has a word boundary at both ends |
| `HighlightProperties.AnnotationKeywordRanges` | composeApp/src/wasmJsMain/kotlin/com/helloanwar/playwithcompose/ui/editor/CodeEditor.wasmJs.kt:120-123 | a keyword range starting with `@` has a word character right before it |
| `HighlightProperties.StringRanges` | composeApp/src/wasmJsMain/kotlin/com/helloanwar/playwithcompose/ui/editor/CodeEditor.wasmJs.kt:129-132 | every string range has length at least 2, starts and ends with a quote, and holds no quote and no line terminator strictly inside |
| `HighlightProperties.NumberRanges` | composeApp/src/wasmJsMain/kotlin/com/helloanwar/playwithcompose/ui/editor/CodeEditor.wasmJs.kt:135-138 | every number range is all decimal digits, with no word character right before or right after it |
| `HighlightProperties.CommentRanges` | composeApp/src/wasmJsMain/kotlin/com/helloanwar/playwithcompose/ui/editor/CodeEditor.wasmJs.kt:141-144 | every comment range starts with `//`, holds no line terminator and ends at the end of the text or just before a line terminator |
| `HighlightExamples.ClassroomHasNoKeyword` | composeApp/src/wasmJsMain/kotlin/com/helloanwar/playwithcompose/ui/editor/CodeEditor.wasmJs.kt:115-126 | `classroom` gets no keyword range, though it begins with `class` |
| `HighlightExamples.ComposableAfterWord` | composeApp/src/wasmJsMain/kotlin/com/helloanwar/playwithcompose/ui/editor/CodeEditor.wasmJs.kt:120-123 | in `x@Composable` the keyword regex matches `@Composable` |
| `HighlightExamples.ComposableStyled` | composeApp/src/wasmJsMain/kotlin/com/helloanwar/playwithcompose/ui/editor/CodeEditor.wasmJs.kt:120-126 | so the highlighted list of `x@Composable` holds the keyword range `[1, 12)` |
| `HighlightExamples.ComposableAfterSpace` | composeApp/src/wasmJsMain/kotlin/com/helloanwar/playwithcompose/ui/editor/CodeEditor.wasmJs.kt:120-126 | in ` @Composable` it does not, since there is no word boundary before `@`, and that text gets no keyword range at all |
| `HighlightExamples.EmptyTextUnstyled` | composeApp/src/wasmJsMain/kotlin/com/helloanwar/playwithcompose/ui/editor/CodeEditor.wasmJs.kt:103-146 | the empty text gets no span style at all |
| `HighlightExamples.UnterminatedQuoteNotString` | composeApp/src/wasmJsMain/kotlin/com/helloanwar/playwithcompose/ui/editor/CodeEditor.wasmJs.kt:129-132 | `val s = "abc` gets no string range at all |
| `HighlightExamples.LineCommentStopsAtNewline` | composeApp/src/wasmJsMain/kotlin/com/helloanwar/playwithcompose/ui/editor/CodeEditor.wasmJs.kt:135-144 | in `x = 1 // comment` followed by `y = 2` on the next line, the only comment range is `[6, 16)`, ending before the newline, and the `2` on the second line still gets the number range `[21, 22)` |
| `HighlightExamples.KeywordInsideString` | composeApp/src/wasmJsMain/kotlin/com/helloanwar/playwithcompose/ui/editor/CodeEditor.wasmJs.kt:124-132 | in `val x = "class"` the list holds both the keyword range `[9, 14)` and the string range `[8, 15)`: overlapping ranges are both kept |

## Left out

- Colours (lines 108-112) are left out: each style carries its category instead. `funNameColor` (line 111) is declared but never used, so no category stands for it.
- How Compose draws overlapping span styles is left out. That is library code outside this program, so the model claims no winner between overlapping categories.
- Non-ASCII word characters around `\b` are left out: the model's word boundary counts only `[A-Za-z0-9_]` as word characters, so in text with non-ASCII letters or digits next to a keyword or number it may place boundaries differently from an engine whose word class is Unicode. `\d` is modelled as the ASCII digits `0-9`.
- The Kotlin `String` is indexed in UTF-16 code units; the model indexes by character. Texts with characters outside the Basic Multilingual Plane therefore get different offsets, because each such character takes two code units.
- The editor's layout is left out: the scroll state, the `BasicTextField`, the colours and sizes, and the gutter's `repeat` that draws the numbers (lines 24-101). The gutter is kept only as the count it is given.
- The `VisualTransformation` wiring (lines 30-37) is kept only as the identity text property of `CodeEditor.HighlightKotlinCode`.
- HomeScreen.kt, CodeEditor.ios.kt, App.kt and main.kt are not part of this model: they hold layout and application start-up, not highlighting logic.
- Regex compilation is left out: the four patterns are fixed and well formed, so compilation never fails.
