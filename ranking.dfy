/** Stable ranking by a score, highest first, ties broken by an earlier
    position: the order in which `nlargest(keep='first')` returns numeric
    scores. The affinity tables use it for `sort_values(ascending=False)` as
    well, which leaves the order of ties undefined. */
module Ranking {

  /** `a` ranks strictly ahead of `b`: a higher score, or the same score and
      an earlier position. */
  predicate Before<T>(score: T -> real, pos: T -> int, a: T, b: T) {
    score(a) > score(b) || (score(a) == score(b) && pos(a) < pos(b))
  }

  /** No element ranks strictly ahead of one that comes before it. */
  predicate Ranked<T>(score: T -> real, pos: T -> int, s: seq<T>) {
    forall i, j :: 0 <= i < j < |s| ==> !Before(score, pos, s[j], s[i])
  }

  /** No two elements of `s` share a value of `f`. */
  predicate DistinctBy<T, U(==)>(f: T -> U, s: seq<T>) {
    forall i, j :: 0 <= i < j < |s| ==> f(s[i]) != f(s[j])
  }

  /** `x` placed into the ranked sequence `s`, after every element that ranks
      strictly ahead of it. */
  function Insert<T(==)>(score: T -> real, pos: T -> int, x: T, s: seq<T>): (r: seq<T>)
    requires Ranked(score, pos, s)
    ensures multiset(r) == multiset(s) + multiset{x}
    ensures Ranked(score, pos, r)
  {
    if s == [] || !Before(score, pos, s[0], x) then
      NoneAhead(score, pos, x, s);
      ConsRanked(score, pos, x, s);
      [x] + s
    else
      var rest := Insert(score, pos, x, s[1..]);
      assert s == [s[0]] + s[1..];
      HeadStaysAhead(score, pos, x, s, rest);
      ConsRanked(score, pos, s[0], rest);
      [s[0]] + rest
  }

  /** Prepending an element that nothing in a ranked sequence ranks ahead of
      keeps it ranked. */
  lemma ConsRanked<T>(score: T -> real, pos: T -> int, h: T, rest: seq<T>)
    requires Ranked(score, pos, rest)
    requires forall y :: y in rest ==> !Before(score, pos, y, h)
    ensures Ranked(score, pos, [h] + rest)
  {
    var r := [h] + rest;
    forall i, j | 0 <= i < j < |r| ensures !Before(score, pos, r[j], r[i]) {
      assert r[j] == rest[j - 1];
      if i > 0 {
        assert r[i] == rest[i - 1];
      }
    }
  }

  /** Nothing in a ranked sequence ranks ahead of an element that its head
      does not rank ahead of. */
  lemma NoneAhead<T>(score: T -> real, pos: T -> int, x: T, s: seq<T>)
    requires Ranked(score, pos, s)
    requires s == [] || !Before(score, pos, s[0], x)
    ensures forall y :: y in s ==> !Before(score, pos, y, x)
  {
    forall y | y in s ensures !Before(score, pos, y, x) {
      var k :| 0 <= k < |s| && s[k] == y;
      if k > 0 {
        assert !Before(score, pos, s[k], s[0]);
      }
    }
  }

  /** After `x` is inserted into the tail, the head still ranks no lower than
      anything there. */
  lemma HeadStaysAhead<T>(score: T -> real, pos: T -> int, x: T, s: seq<T>, rest: seq<T>)
    requires Ranked(score, pos, s) && s != [] && Before(score, pos, s[0], x)
    requires multiset(rest) == multiset(s[1..]) + multiset{x}
    ensures forall y :: y in rest ==> !Before(score, pos, y, s[0])
  {
    forall y | y in rest ensures !Before(score, pos, y, s[0]) {
      assert y in multiset(rest);
      if y != x {
        assert y in multiset(s[1..]);
        var k :| 0 <= k < |s[1..]| && s[1..][k] == y;
        assert s[k + 1] == y;
      }
    }
  }

  /** `s` rearranged into ranked order (an insertion sort). */
  function SortBy<T(==)>(score: T -> real, pos: T -> int, s: seq<T>): (r: seq<T>)
    ensures multiset(r) == multiset(s) && |r| == |s|
    ensures Ranked(score, pos, r)
  {
    if s == [] then
      []
    else
      assert s == [s[0]] + s[1..];
      Insert(score, pos, s[0], SortBy(score, pos, s[1..]))
  }

  /** In a ranked sequence the scores never increase. */
  lemma RankedScores<T>(score: T -> real, pos: T -> int, s: seq<T>)
    requires Ranked(score, pos, s)
    ensures forall i, j :: 0 <= i < j < |s| ==> score(s[i]) >= score(s[j])
  {
    forall i, j | 0 <= i < j < |s| ensures score(s[i]) >= score(s[j]) {
      assert !Before(score, pos, s[j], s[i]);
    }
  }

  /** An element that occurs at least twice sits at two positions. */
  lemma {:induction false} TwoPositions<T>(s: seq<T>, x: T)
    requires multiset(s)[x] >= 2
    ensures exists p, q :: 0 <= p < q < |s| && s[p] == x && s[q] == x
  {
    assert s == [s[0]] + s[1..];
    if s[0] == x {
      assert x in multiset(s[1..]);
      var q :| 0 <= q < |s[1..]| && s[1..][q] == x;
      assert s[0] == x && s[q + 1] == x;
    } else {
      TwoPositions(s[1..], x);
      var p, q :| 0 <= p < q < |s[1..]| && s[1..][p] == x && s[1..][q] == x;
      assert s[p + 1] == x && s[q + 1] == x;
    }
  }

  /** Rearranging a sequence keeps its elements apart under `f`. */
  lemma PermutationKeepsDistinct<T, U>(f: T -> U, a: seq<T>, b: seq<T>)
    requires multiset(a) == multiset(b) && DistinctBy(f, a)
    ensures DistinctBy(f, b)
  {
    forall i, j | 0 <= i < j < |b| ensures f(b[i]) != f(b[j]) {
      if b[i] == b[j] {
        assert b == b[..j] + b[j..];
        assert b[i] == b[..j][i] && b[j] == b[j..][0];
        assert multiset(b)[b[i]] >= 2;
        TwoPositions(a, b[i]);
      } else {
        assert b[i] in multiset(a) && b[j] in multiset(a);
        var p :| 0 <= p < |a| && a[p] == b[i];
        var q :| 0 <= q < |a| && a[q] == b[j];
        assert p != q;
      }
    }
  }
}
