/**
 * The part of Compose's `AnnotatedString.Builder` that the highlighter uses:
 * it holds the text appended so far and the list of span styles added so far,
 * and `addStyle` only ever appends to that list.  A span style's colour is
 * represented by the category it was chosen for.
 */
module AnnotatedText {
  import opened Patterns

  /** A span style over the half-open range `[start, end)`. */
  datatype StyleRange = StyleRange(category: Category, start: int, end: int)

  /** The built result: the text and its span styles, in the order they were added. */
  datatype AnnotatedString = AnnotatedString(text: string, spanStyles: seq<StyleRange>)

  class AnnotatedStringBuilder {
    var text: string
    var spanStyles: seq<StyleRange>

    constructor ()
      ensures text == [] && spanStyles == []
    {
      text := [];
      spanStyles := [];
    }

    /** `append(text)`: the text grows; the styles stay. */
    method Append(t: string)
      modifies this
      ensures text == old(text) + t
      ensures spanStyles == old(spanStyles)
    {
      text := text + t;
    }

    /** `addStyle(style, start, end)`: one more span style at the end of the list; the text stays. */
    method AddStyle(c: Category, start: int, end: int)
      modifies this
      ensures text == old(text)
      ensures spanStyles == old(spanStyles) + [StyleRange(c, start, end)]
    {
      spanStyles := spanStyles + [StyleRange(c, start, end)];
    }

    /**
     * `toAnnotatedString()`, which `buildAnnotatedString` returns: a snapshot
     * of the text and of every style added, in the order they were added.
     */
    function ToAnnotatedString(): AnnotatedString
      reads this
    {
      AnnotatedString(text, spanStyles)
    }
  }
}
