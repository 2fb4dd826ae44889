/**
 * `CharSequence.split(delimiter)` of the Kotlin standard library for one
 * delimiter character: the pieces between successive delimiters, including
 * an empty first or last piece when the text starts or ends with one.
 */
module KotlinText {

  /** `indexOf(d, from)`: the first index at or after `from` holding `d`, or -1. */
  function IndexOf(s: string, d: char, from: nat): (i: int)
    requires from <= |s|
    ensures i == -1 || from <= i < |s|
    ensures i != -1 ==> s[i] == d
    ensures forall j :: from <= j < |s| && (i == -1 || j < i) ==> s[j] != d
    decreases |s| - from
  {
    if from == |s| then -1
    else if s[from] == d then from
    else IndexOf(s, d, from + 1)
  }

  /** The pieces of `s` from index `offset` on. */
  function SplitFrom(s: string, d: char, offset: nat): seq<string>
    requires offset <= |s|
    decreases |s| - offset
  {
    var next := IndexOf(s, d, offset);
    if next == -1 then [s[offset..]]
    else [s[offset..next]] + SplitFrom(s, d, next + 1)
  }

  function Split(s: string, d: char): seq<string> {
    SplitFrom(s, d, 0)
  }

  /** The pieces joined back together with the delimiter between them. */
  function Join(parts: seq<string>, d: char): string {
    if |parts| <= 1 then (if parts == [] then [] else parts[0])
    else parts[0] + [d] + Join(parts[1..], d)
  }

  /** There is one piece more than there are delimiters. */
  lemma {:induction false} SplitFromCount(s: string, d: char, offset: nat)
    requires offset <= |s|
    ensures |SplitFrom(s, d, offset)| == multiset(s[offset..])[d] + 1
    decreases |s| - offset
  {
    var next := IndexOf(s, d, offset);
    if next == -1 {
      NotInMultiset(s[offset..], d);
    } else {
      SplitFromCount(s, d, next + 1);
      NotInMultiset(s[offset..next], d);
      CountAround(s, offset, next, d);
    }
  }

  /** The delimiters from `offset` on: those before `next`, the one at `next`, and those after it. */
  lemma CountAround(s: string, offset: nat, next: nat, d: char)
    requires offset <= next < |s| && s[next] == d
    ensures multiset(s[offset..])[d] == multiset(s[offset..next])[d] + 1 + multiset(s[next + 1..])[d]
  {
    assert s[offset..] == s[offset..next] + [d] + s[next + 1..];
    assert multiset(s[offset..]) == multiset(s[offset..next]) + multiset{d} + multiset(s[next + 1..]);
  }

  lemma NotInMultiset(t: string, d: char)
    requires forall j :: 0 <= j < |t| ==> t[j] != d
    ensures multiset(t)[d] == 0
  {
    assert d !in t;
  }

  lemma JoinCons(x: string, rest: seq<string>, d: char)
    requires |rest| >= 1
    ensures Join([x] + rest, d) == x + [d] + Join(rest, d)
  {
    assert ([x] + rest)[1..] == rest;
  }

  /** Joining the pieces gives the text back. */
  lemma {:induction false} SplitFromJoin(s: string, d: char, offset: nat)
    requires offset <= |s|
    ensures Join(SplitFrom(s, d, offset), d) == s[offset..]
    decreases |s| - offset
  {
    var next := IndexOf(s, d, offset);
    if next != -1 {
      SplitFromJoin(s, d, next + 1);
      var rest := SplitFrom(s, d, next + 1);
      assert |rest| >= 1 by { SplitFromCount(s, d, next + 1); }
      assert SplitFrom(s, d, offset) == [s[offset..next]] + rest;
      JoinCons(s[offset..next], rest, d);
      assert s[offset..] == s[offset..next] + [d] + s[next + 1..];
    }
  }

  /** No piece holds the delimiter. */
  lemma {:induction false} SplitFromPieces(s: string, d: char, offset: nat)
    requires offset <= |s|
    ensures forall part :: part in SplitFrom(s, d, offset) ==> d !in part
    decreases |s| - offset
  {
    var next := IndexOf(s, d, offset);
    if next != -1 {
      SplitFromPieces(s, d, next + 1);
    }
  }

  lemma SplitCount(s: string, d: char)
    ensures |Split(s, d)| == multiset(s)[d] + 1
  {
    SplitFromCount(s, d, 0);
    assert s[0..] == s;
  }

  lemma SplitJoin(s: string, d: char)
    ensures Join(Split(s, d), d) == s
    ensures forall part :: part in Split(s, d) ==> d !in part
  {
    SplitFromJoin(s, d, 0);
    SplitFromPieces(s, d, 0);
    assert s[0..] == s;
  }
}
