/**
 * `find_best_match`: the user's question and every stored question are
 * lower-cased, and the close-match search of Python's `difflib` keeps at most
 * one candidate whose similarity ratio reaches the cutoff 0.6.
 *
 * The ratio is 2*M/T, where T is the total length of the two strings and M the
 * number of characters `difflib`'s matching blocks cover. How M is computed is
 * not part of this model: it is a parameter, constrained only by `ValidMetric`.
 */
module Matcher {
  import opened Wrappers
  import opened Text

  /** M(candidate, word): the number of matched characters. */
  type Metric = (string, string) -> nat

  /** What the model assumes of M: it never exceeds either length, a string
      matches itself completely, and covering both strings completely means
      the two are equal. */
  ghost predicate ValidMetric(m: Metric)
  {
    && (forall a, b :: m(a, b) <= |a| && m(a, b) <= |b|)
    && (forall a :: m(a, a) == |a|)
    && (forall a, b :: m(a, b) == |a| && m(a, b) == |b| ==> a == b)
  }

  /** The similarity ratio of candidate `a` against word `b`, as an exact
      rational; two empty strings have ratio 1. */
  function Ratio(m: Metric, a: string, b: string): real
  {
    var total := |a| + |b|;
    if total == 0 then 1.0 else (2 * m(a, b)) as real / total as real
  }

  const Cutoff: real := 0.6

  /** Candidate `x` passes the cutoff against `word`. */
  predicate Qualifies(m: Metric, word: string, x: string)
  {
    Ratio(m, x, word) >= Cutoff
  }

  /** The pair (ratio of x, x) is at most the pair (ratio of y, y): the order in
      which the close-match search ranks the candidates it keeps. */
  predicate RanksAtMost(m: Metric, word: string, x: string, y: string)
  {
    || Ratio(m, x, word) < Ratio(m, y, word)
    || (Ratio(m, x, word) == Ratio(m, y, word) && (x == y || StrLess(x, y)))
  }

  lemma RanksAtMostTotal(m: Metric, word: string, x: string, y: string)
    ensures RanksAtMost(m, word, x, y) || RanksAtMost(m, word, y, x)
  {
    if x != y {
      StrLessTotal(x, y);
    }
  }

  /** Every candidate ranked at most `y` is ranked at most anything above `y`. */
  lemma RanksAtMostChain(m: Metric, word: string, y: string, z: string)
    requires RanksAtMost(m, word, y, z)
    ensures forall x :: RanksAtMost(m, word, x, y) ==> RanksAtMost(m, word, x, z)
  {
    forall x | RanksAtMost(m, word, x, y)
      ensures RanksAtMost(m, word, x, z)
    {
      if x != y && y != z && StrLess(x, y) && StrLess(y, z) {
        StrLessTransitive(x, y, z);
      }
    }
  }

  /** The candidate that passes the cutoff and ranks highest, or None when no
      candidate passes. */
  function BestOf(m: Metric, word: string, xs: seq<string>): (r: Option<string>)
    ensures r.None? <==> forall i :: 0 <= i < |xs| ==> !Qualifies(m, word, xs[i])
    ensures r.Some? ==> r.value in xs && Qualifies(m, word, r.value)
    ensures r.Some? ==> forall i :: 0 <= i < |xs| && Qualifies(m, word, xs[i]) ==>
                          RanksAtMost(m, word, xs[i], r.value)
  {
    if xs == [] then None
    else
      var rest := BestOf(m, word, xs[1..]);
      if !Qualifies(m, word, xs[0]) then rest
      else if rest.None? then Some(xs[0])
      else if RanksAtMost(m, word, rest.value, xs[0]) then
        RanksAtMostChain(m, word, rest.value, xs[0]);
        StrLessIrreflexive(xs[0]);
        Some(xs[0])
      else
        RanksAtMostTotal(m, word, rest.value, xs[0]);
        rest
  }

  /** For a positive denominator, n / t >= c exactly when n >= c * t. */
  lemma DivAtLeast(n: real, t: real, c: real)
    requires t > 0.0
    ensures n / t >= c <==> n >= c * t
  {
    var q := n / t;
    assert q * t == n;
    if q >= c { assert q * t >= c * t; }
    if n >= c * t { assert q * t >= c * t; }
  }

  /** For a positive denominator, n / t <= c exactly when n <= c * t. */
  lemma DivAtMost(n: real, t: real, c: real)
    requires t > 0.0
    ensures n / t <= c <==> n <= c * t
  {
    var q := n / t;
    assert q * t == n;
    if q <= c { assert q * t <= c * t; }
    if n <= c * t { assert q * t <= c * t; }
  }

  /** The cutoff 0.6 on the ratio is the integer condition 10*M >= 3*T. */
  lemma CutoffIsIntegral(m: Metric, x: string, word: string)
    ensures Qualifies(m, word, x) <==> 10 * m(x, word) >= 3 * (|x| + |word|)
  {
    var total := |x| + |word|;
    if total > 0 {
      DivAtLeast((2 * m(x, word)) as real, total as real, Cutoff);
    }
  }

  /** With a valid metric no ratio exceeds 1. */
  lemma RatioAtMostOne(m: Metric, x: string, word: string)
    requires ValidMetric(m)
    ensures Ratio(m, x, word) <= 1.0
  {
    var total := |x| + |word|;
    if total > 0 {
      DivAtMost((2 * m(x, word)) as real, total as real, 1.0);
    }
  }

  /** A ratio of 1 is reached exactly by a string against itself. */
  lemma RatioOneIffEqual(m: Metric, x: string, word: string)
    requires ValidMetric(m)
    ensures Ratio(m, x, word) >= 1.0 <==> x == word
  {
    var total := |x| + |word|;
    if total > 0 {
      DivAtLeast((2 * m(x, word)) as real, total as real, 1.0);
      if x == word {
        assert m(x, word) == |x|;
      }
    }
  }

  /** `find_best_match`: lower-case the user's question and the candidates,
      and keep the best candidate that passes the cutoff. */
  function FindBestMatch(m: Metric, userQuestion: string, questions: seq<string>): (r: Option<string>)
    ensures questions == [] ==> r.None?
    ensures r.None? <==> forall i :: 0 <= i < |questions| ==>
              10 * m(Lower(questions[i]), Lower(userQuestion)) < 3 * (|questions[i]| + |userQuestion|)
    ensures r.Some? ==> exists i :: 0 <= i < |questions| && r.value == Lower(questions[i])
    ensures r.Some? ==> 10 * m(r.value, Lower(userQuestion)) >= 3 * (|r.value| + |userQuestion|)
    ensures r.Some? ==> forall i :: 0 <= i < |questions| ==>
              Ratio(m, Lower(questions[i]), Lower(userQuestion)) <= Ratio(m, r.value, Lower(userQuestion))
  {
    var word := Lower(userQuestion);
    var candidates := seq(|questions|, i requires 0 <= i < |questions| => Lower(questions[i]));
    CutoffIsIntegralOn(m, word, candidates);
    var r := BestOf(m, word, candidates);
    assert forall i :: 0 <= i < |questions| ==>
      candidates[i] == Lower(questions[i]) && |candidates[i]| == |questions[i]|;
    assert r.None? <==> forall i :: 0 <= i < |questions| ==> !Qualifies(m, word, candidates[i]);
    assert r.Some? ==> forall i :: 0 <= i < |questions| ==>
      Ratio(m, candidates[i], word) <= Ratio(m, r.value, word);
    r
  }

  /** `CutoffIsIntegral` for every candidate of a list. */
  lemma CutoffIsIntegralOn(m: Metric, word: string, xs: seq<string>)
    ensures forall i :: 0 <= i < |xs| ==>
              (Qualifies(m, word, xs[i]) <==> 10 * m(xs[i], word) >= 3 * (|xs[i]| + |word|))
  {
    forall i | 0 <= i < |xs|
      ensures Qualifies(m, word, xs[i]) <==> 10 * m(xs[i], word) >= 3 * (|xs[i]| + |word|)
    {
      CutoffIsIntegral(m, xs[i], word);
    }
  }

  /** A user question equal to a stored one, ignoring case, is matched by
      exactly its own lower-cased form. */
  lemma ExactQuestionMatches(m: Metric, userQuestion: string, questions: seq<string>, i: int)
    requires ValidMetric(m)
    requires 0 <= i < |questions| && Lower(questions[i]) == Lower(userQuestion)
    ensures FindBestMatch(m, userQuestion, questions) == Some(Lower(userQuestion))
  {
    var word := Lower(userQuestion);
    RatioOneIffEqual(m, word, word);
    CutoffIsIntegral(m, word, word);
    var r := FindBestMatch(m, userQuestion, questions);
    assert r.Some?;
    RatioAtMostOne(m, r.value, word);
    RatioOneIffEqual(m, r.value, word);
  }

  /** A non-empty question is never matched by an empty candidate. */
  lemma MatchOfNonEmptyIsNonEmpty(m: Metric, userQuestion: string, questions: seq<string>)
    requires ValidMetric(m)
    requires userQuestion != []
    ensures FindBestMatch(m, userQuestion, questions) != Some([])
  {
    var r := FindBestMatch(m, userQuestion, questions);
    if r == Some([]) {
      assert false;
    }
  }
}
