/**
 * `Regex.find` and `Regex.findAll`, for any pattern whose matches are never
 * empty: a search for the leftmost match at or after a start index, and the
 * left-to-right sequence of non-overlapping matches obtained by resuming each
 * search just after the previous match.
 */
module Regex {
  import opened Wrappers

  /** A compiled regex as the search sees it: where a match tried at a position ends, if it succeeds. */
  type Pattern = (string, nat) -> Option<nat>

  /** Every match of `pat` in `s` is non-empty and stays inside the text. */
  ghost predicate NonEmptyMatches(pat: Pattern, s: string) {
    forall p: nat :: pat(s, p).Some? ==> p < pat(s, p).value <= |s|
  }

  /** Kotlin's `IntRange` of a match: `first` and `last` are both inside it. */
  datatype IntRange = IntRange(first: int, last: int)

  /**
   * `find(code, start)`: the leftmost match that begins at or after `start`.
   * With none, no position from `start` on begins a match.
   */
  function Find(pat: Pattern, s: string, start: nat): (r: Option<IntRange>)
    requires NonEmptyMatches(pat, s) && start <= |s|
    ensures r.Some? ==> start <= r.value.first <= r.value.last < |s|
    ensures r.Some? ==> pat(s, r.value.first) == Some(r.value.last + 1)
    ensures r.Some? ==> forall p: nat :: start <= p < r.value.first ==> pat(s, p).None?
    ensures r.None? ==> forall p: nat :: start <= p <= |s| ==> pat(s, p).None?
    decreases |s| - start
  {
    match pat(s, start)
    case Some(e) => Some(IntRange(start, e - 1))
    case None => if start == |s| then None else Find(pat, s, start + 1)
  }

  /** The matches `findAll` yields once the search has reached `start`. */
  function MatchesFrom(pat: Pattern, s: string, start: nat): seq<IntRange>
    requires NonEmptyMatches(pat, s) && start <= |s|
    decreases |s| - start
  {
    match Find(pat, s, start)
    case None => []
    case Some(m) => [m] + MatchesFrom(pat, s, m.last + 1)
  }

  /**
   * `findAll(code)`: all matches, each inside the text, left to right without
   * overlapping, and with no match skipped.
   */
  function Matches(pat: Pattern, s: string): (ms: seq<IntRange>)
    requires NonEmptyMatches(pat, s)
    ensures forall r :: r in ms ==> 0 <= r.first <= r.last < |s| && pat(s, r.first) == Some(r.last + 1)
    ensures Ascending(ms)
    ensures forall p: nat :: p <= |s| && Uncovered(ms, p) ==> pat(s, p).None?
  {
    var ms := MatchesFrom(pat, s, 0);
    MatchesFromSound(pat, s, 0);
    MatchesFromAscending(pat, s, 0);
    forall p: nat | p <= |s| && Uncovered(ms, p) ensures pat(s, p).None? {
      MatchesFromComplete(pat, s, 0, p);
    }
    ms
  }

  /**
   * The search loop of `findAll`: `find` from the start, then from just after
   * each match, until a search fails.
   */
  method FindAll(pat: Pattern, s: string) returns (ms: seq<IntRange>)
    requires NonEmptyMatches(pat, s)
    ensures ms == Matches(pat, s)
  {
    ms := [];
    var next := 0;
    var m := Find(pat, s, 0);
    while m.Some?
      invariant next <= |s|
      invariant m == Find(pat, s, next)
      invariant ms + MatchesFrom(pat, s, next) == MatchesFrom(pat, s, 0)
      decreases |s| - next
    {
      var found := m.value;
      MatchesFromStep(pat, s, next, ms, found);
      ms := ms + [found];
      next := found.last + 1;
      m := Find(pat, s, next);
    }
    MatchesFromStart(pat, s);
  }

  /** `findAll` starts its search at the beginning of the text. */
  lemma MatchesFromStart(pat: Pattern, s: string)
    requires NonEmptyMatches(pat, s)
    ensures Matches(pat, s) == MatchesFrom(pat, s, 0)
  {
  }

  /** One turn of the search loop moves the match it found from the pending matches to the yielded ones. */
  lemma MatchesFromStep(pat: Pattern, s: string, next: nat, ms: seq<IntRange>, m: IntRange)
    requires NonEmptyMatches(pat, s) && next <= |s| && Find(pat, s, next) == Some(m)
    requires ms + MatchesFrom(pat, s, next) == MatchesFrom(pat, s, 0)
    ensures m.last + 1 <= |s|
    ensures (ms + [m]) + MatchesFrom(pat, s, m.last + 1) == MatchesFrom(pat, s, 0)
  {
    var rest := MatchesFrom(pat, s, m.last + 1);
    assert MatchesFrom(pat, s, next) == [m] + rest;
    assert (ms + [m]) + rest == ms + ([m] + rest);
  }

  /** Position `p` lies inside none of the ranges of `ms`. */
  predicate Uncovered(ms: seq<IntRange>, p: int) {
    forall i :: 0 <= i < |ms| ==> !(ms[i].first <= p <= ms[i].last)
  }

  /** The ranges of `ms` come left to right and do not overlap. */
  predicate Ascending(ms: seq<IntRange>) {
    forall i, j :: 0 <= i < j < |ms| ==> ms[i].last < ms[j].first
  }

  /** Every range `findAll` yields is a match of the pattern inside the text. */
  lemma {:induction false} MatchesFromSound(pat: Pattern, s: string, start: nat)
    requires NonEmptyMatches(pat, s) && start <= |s|
    ensures forall r :: r in MatchesFrom(pat, s, start) ==>
      start <= r.first <= r.last < |s| && pat(s, r.first) == Some(r.last + 1)
    decreases |s| - start
  {
    match Find(pat, s, start)
    case None =>
    case Some(m) =>
      MatchesFromSound(pat, s, m.last + 1);
  }

  /** The ranges `findAll` yields come left to right without overlapping. */
  lemma {:induction false} MatchesFromAscending(pat: Pattern, s: string, start: nat)
    requires NonEmptyMatches(pat, s) && start <= |s|
    ensures Ascending(MatchesFrom(pat, s, start))
    decreases |s| - start
  {
    match Find(pat, s, start)
    case None =>
    case Some(m) =>
      MatchesFromAscending(pat, s, m.last + 1);
      MatchesFromSound(pat, s, m.last + 1);
      ConsAscending(m, MatchesFrom(pat, s, m.last + 1));
  }

  lemma ConsAscending(m: IntRange, rest: seq<IntRange>)
    requires Ascending(rest) && forall r :: r in rest ==> m.last < r.first
    ensures Ascending([m] + rest)
  {
    var ms := [m] + rest;
    forall i, j | 0 <= i < j < |ms| ensures ms[i].last < ms[j].first {
      assert ms[j] == rest[j - 1];
      if i > 0 {
        assert ms[i] == rest[i - 1];
      }
    }
  }

  /**
   * `findAll` skips no match: a position that lies inside none of the ranges
   * it yields begins no match.
   */
  lemma {:induction false} MatchesFromComplete(pat: Pattern, s: string, start: nat, p: nat)
    requires NonEmptyMatches(pat, s) && start <= p <= |s|
    requires Uncovered(MatchesFrom(pat, s, start), p)
    ensures pat(s, p).None?
    decreases |s| - start
  {
    match Find(pat, s, start)
    case None =>
    case Some(m) =>
      var ms := MatchesFrom(pat, s, start);
      var rest := MatchesFrom(pat, s, m.last + 1);
      assert ms == [m] + rest;
      assert !(ms[0].first <= p <= ms[0].last);
      if p > m.last {
        forall i | 0 <= i < |rest| ensures !(rest[i].first <= p <= rest[i].last) {
          assert rest[i] == ms[i + 1];
        }
        MatchesFromComplete(pat, s, m.last + 1, p);
      }
  }
}
