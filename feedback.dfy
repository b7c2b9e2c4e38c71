/**
 * Feedback scoring: how a guess compares with a secret, as a pair of counts
 * (exact, partial). The specification is the standard Mastermind score:
 * exact matches are the agreeing positions, and partial matches are the size
 * of the multiset intersection of the values left over on each side. The
 * source computes it with a two-pass algorithm over copies of the two value
 * arrays that blanks out (sets to nil) every value it consumes; that
 * algorithm is modelled on arrays and proved to compute the specification.
 */
module Scoring {
  import opened Wrappers

  /** Equality is equality of the (exact, partial) pair. */
  datatype Feedback = Feedback(exactMatches: nat, partialMatches: nat)

  /** Position i holds the same value in both sequences (indexing past the end yields nil, which matches nothing). */
  predicate MatchAt(s: seq<int>, g: seq<int>, i: int)
  {
    0 <= i < |s| && i < |g| && s[i] == g[i]
  }

  /** The number of exact matches among the first k positions of s. */
  function ExactPrefix(s: seq<int>, g: seq<int>, k: nat): nat
    requires k <= |s|
  {
    if k == 0 then 0 else ExactPrefix(s, g, k - 1) + (if MatchAt(s, g, k - 1) then 1 else 0)
  }

  /** The values of s among its first k positions that are not exact matches, in order. */
  function Unmatched(s: seq<int>, g: seq<int>, k: nat): seq<int>
    requires k <= |s|
  {
    if k == 0 then [] else Unmatched(s, g, k - 1) + (if MatchAt(s, g, k - 1) then [] else [s[k - 1]])
  }

  function ExactMatches(s: seq<int>, g: seq<int>): nat
  {
    ExactPrefix(s, g, |s|)
  }

  /** The reference score of a guess against a secret. */
  ghost function Score(secret: seq<int>, guess: seq<int>): Feedback
  {
    Feedback(ExactMatches(secret, guess),
             |multiset(Unmatched(secret, guess, |secret|)) * multiset(Unmatched(guess, secret, |guess|))|)
  }

  // ---------------------------------------------------------------------
  // Properties of the score
  // ---------------------------------------------------------------------

  lemma {:induction false} UnmatchedCount(s: seq<int>, g: seq<int>, k: nat)
    requires k <= |s|
    ensures ExactPrefix(s, g, k) + |Unmatched(s, g, k)| == k
  {
    if k > 0 { UnmatchedCount(s, g, k - 1); }
  }

  lemma IntersectionBound(a: multiset<int>, b: multiset<int>)
    ensures |a * b| <= |a| && |a * b| <= |b|
  {
    assert a == a * b + (a - b);
    assert b == a * b + (b - a);
  }

  /** Positions past the end of the other sequence never match. */
  lemma {:induction false} ExactPrefixStops(s: seq<int>, g: seq<int>, k: nat)
    requires |g| <= k <= |s|
    ensures ExactPrefix(s, g, k) == ExactPrefix(s, g, |g|)
    decreases k
  {
    if k > |g| { ExactPrefixStops(s, g, k - 1); }
  }

  lemma {:induction false} ExactPrefixSymmetric(s: seq<int>, g: seq<int>, k: nat)
    requires k <= |s| && k <= |g|
    ensures ExactPrefix(s, g, k) == ExactPrefix(g, s, k)
  {
    if k > 0 { ExactPrefixSymmetric(s, g, k - 1); }
  }

  /** The exact-match count does not depend on which code is the secret. */
  lemma ExactSymmetric(s: seq<int>, g: seq<int>)
    ensures ExactMatches(s, g) == ExactMatches(g, s)
  {
    if |s| <= |g| {
      ExactPrefixStops(g, s, |g|);
      ExactPrefixSymmetric(s, g, |s|);
    } else {
      ExactPrefixStops(s, g, |s|);
      ExactPrefixSymmetric(s, g, |g|);
    }
  }

  /**
   * Every increment consumes a distinct secret position and a distinct guess
   * position, so the two counts together never exceed either length.
   */
  lemma ScoreBound(secret: seq<int>, guess: seq<int>)
    ensures Score(secret, guess).exactMatches + Score(secret, guess).partialMatches <= |secret|
    ensures Score(secret, guess).exactMatches + Score(secret, guess).partialMatches <= |guess|
  {
    var us, ug := Unmatched(secret, guess, |secret|), Unmatched(guess, secret, |guess|);
    UnmatchedCount(secret, guess, |secret|);
    UnmatchedCount(guess, secret, |guess|);
    ExactSymmetric(secret, guess);
    IntersectionBound(multiset(us), multiset(ug));
  }

  /** Swapping secret and guess changes neither count. */
  lemma ScoreSymmetric(secret: seq<int>, guess: seq<int>)
    ensures Score(secret, guess) == Score(guess, secret)
  {
    ExactSymmetric(secret, guess);
    var a, b := multiset(Unmatched(secret, guess, |secret|)), multiset(Unmatched(guess, secret, |guess|));
    assert a * b == b * a;
  }

  lemma {:induction false} SelfPrefix(s: seq<int>, k: nat)
    requires k <= |s|
    ensures ExactPrefix(s, s, k) == k && Unmatched(s, s, k) == []
  {
    if k > 0 { SelfPrefix(s, k - 1); }
  }

  /** A code scored against itself has every position exact and no partial match. */
  lemma ScoreSelf(s: seq<int>)
    ensures Score(s, s) == Feedback(|s|, 0)
  {
    SelfPrefix(s, |s|);
  }

  lemma {:induction false} FullPrefixMatches(s: seq<int>, g: seq<int>, k: nat)
    requires k <= |s|
    ensures ExactPrefix(s, g, k) <= k
    ensures ExactPrefix(s, g, k) == k ==> forall i :: 0 <= i < k ==> MatchAt(s, g, i)
  {
    if k > 0 { FullPrefixMatches(s, g, k - 1); }
  }

  /** For codes of equal length, all positions are exact exactly when the guess is the secret. */
  lemma AllExactIffEqual(secret: seq<int>, guess: seq<int>)
    requires |secret| == |guess|
    ensures Score(secret, guess).exactMatches == |secret| <==> secret == guess
  {
    if secret == guess {
      ScoreSelf(secret);
    }
    if Score(secret, guess).exactMatches == |secret| {
      AllMatchEqual(secret, guess);
    }
  }

  lemma AllMatchEqual(s: seq<int>, g: seq<int>)
    requires |s| == |g| && ExactMatches(s, g) == |s|
    ensures s == g
  {
    FullPrefixMatches(s, g, |s|);
    forall i | 0 <= i < |s| ensures s[i] == g[i] {
      assert MatchAt(s, g, i);
    }
  }

  /** The exact count of two four-value codes, position by position. */
  lemma ExactFour(s: seq<int>, g: seq<int>)
    requires |s| == 4 && |g| == 4
    ensures ExactMatches(s, g) ==
      (if s[0] == g[0] then 1 else 0) + (if s[1] == g[1] then 1 else 0) +
      (if s[2] == g[2] then 1 else 0) + (if s[3] == g[3] then 1 else 0)
  {
    assert ExactPrefix(s, g, 1) == if s[0] == g[0] then 1 else 0;
    assert ExactPrefix(s, g, 2) == ExactPrefix(s, g, 1) + if s[1] == g[1] then 1 else 0;
    assert ExactPrefix(s, g, 3) == ExactPrefix(s, g, 2) + if s[2] == g[2] then 1 else 0;
  }

  /** The unmatched values of two four-value codes, position by position. */
  lemma ScoreFour(s: seq<int>, g: seq<int>)
    requires |s| == 4 && |g| == 4
    ensures Unmatched(s, g, 4) ==
      (if s[0] == g[0] then [] else [s[0]]) + (if s[1] == g[1] then [] else [s[1]]) +
      (if s[2] == g[2] then [] else [s[2]]) + (if s[3] == g[3] then [] else [s[3]])
    ensures Unmatched(g, s, 4) ==
      (if s[0] == g[0] then [] else [g[0]]) + (if s[1] == g[1] then [] else [g[1]]) +
      (if s[2] == g[2] then [] else [g[2]]) + (if s[3] == g[3] then [] else [g[3]])
  {
    assert Unmatched(s, g, 1) == [] + if s[0] == g[0] then [] else [s[0]];
    assert Unmatched(s, g, 2) == Unmatched(s, g, 1) + if s[1] == g[1] then [] else [s[1]];
    assert Unmatched(s, g, 3) == Unmatched(s, g, 2) + if s[2] == g[2] then [] else [s[2]];
    assert Unmatched(g, s, 1) == [] + if s[0] == g[0] then [] else [g[0]];
    assert Unmatched(g, s, 2) == Unmatched(g, s, 1) + if s[1] == g[1] then [] else [g[1]];
    assert Unmatched(g, s, 3) == Unmatched(g, s, 2) + if s[2] == g[2] then [] else [g[2]];
  }

  /** The score of two length-4 sequences, from their left-over values. */
  lemma ScoreFromParts(s: seq<int>, g: seq<int>, us: seq<int>, ug: seq<int>)
    requires |s| == 4 && |g| == 4
    requires us ==
      (if s[0] == g[0] then [] else [s[0]]) + (if s[1] == g[1] then [] else [s[1]]) +
      (if s[2] == g[2] then [] else [s[2]]) + (if s[3] == g[3] then [] else [s[3]])
    requires ug ==
      (if s[0] == g[0] then [] else [g[0]]) + (if s[1] == g[1] then [] else [g[1]]) +
      (if s[2] == g[2] then [] else [g[2]]) + (if s[3] == g[3] then [] else [g[3]])
    ensures Score(s, g) == Feedback(
      (if s[0] == g[0] then 1 else 0) + (if s[1] == g[1] then 1 else 0) +
      (if s[2] == g[2] then 1 else 0) + (if s[3] == g[3] then 1 else 0),
      |multiset(us) * multiset(ug)|)
  {
    ExactFour(s, g);
    ScoreFour(s, g);
  }

  // The worked examples of the source's tests, duplicates included.

  lemma ScoreNoCommonValueCommon()
    ensures |multiset([0, 1, 2, 3]) * multiset([4, 5, 4, 5])| == 0
  {
    assert multiset([0, 1, 2, 3]) * multiset([4, 5, 4, 5]) == multiset{};
  }

  /** No value in common: nothing matches. */
  lemma ScoreNoCommonValue()
    ensures Score([0, 1, 2, 3], [4, 5, 4, 5]) == Feedback(0, 0)
  {
    ScoreFromParts([0, 1, 2, 3], [4, 5, 4, 5], [0, 1, 2, 3], [4, 5, 4, 5]);
    ScoreNoCommonValueCommon();
  }

  lemma ScoreAllMisplacedCommon()
    ensures |multiset([0, 1, 2, 3]) * multiset([3, 2, 1, 0])| == 4
  {
    assert multiset([0, 1, 2, 3]) * multiset([3, 2, 1, 0]) == multiset{0, 1, 2, 3};
  }

  /** The same values in reverse order: every value a partial match. */
  lemma ScoreAllMisplaced()
    ensures Score([0, 1, 2, 3], [3, 2, 1, 0]) == Feedback(0, 4)
  {
    ScoreFromParts([0, 1, 2, 3], [3, 2, 1, 0], [0, 1, 2, 3], [3, 2, 1, 0]);
    ScoreAllMisplacedCommon();
  }

  lemma ScoreTwoSwappedCommon()
    ensures |multiset([2, 3]) * multiset([3, 2])| == 2
  {
    assert multiset([2, 3]) * multiset([3, 2]) == multiset{2, 3};
  }

  /** Two values in place, two swapped. */
  lemma ScoreTwoSwapped()
    ensures Score([0, 1, 2, 3], [0, 1, 3, 2]) == Feedback(2, 2)
  {
    ScoreFromParts([0, 1, 2, 3], [0, 1, 3, 2], [2, 3], [3, 2]);
    ScoreTwoSwappedCommon();
  }

  lemma ScoreRepeatedGuessValueCommon()
    ensures |multiset([2, 3]) * multiset([1, 1])| == 0
  {
    assert multiset([2, 3]) * multiset([1, 1]) == multiset{};
  }

  /** A guess value repeated after its exact match earns no partial match. */
  lemma ScoreRepeatedGuessValue()
    ensures Score([0, 1, 2, 3], [0, 1, 1, 1]) == Feedback(2, 0)
  {
    ScoreFromParts([0, 1, 2, 3], [0, 1, 1, 1], [2, 3], [1, 1]);
    ScoreRepeatedGuessValueCommon();
  }

  lemma ScoreSecretDuplicatesCommon()
    ensures |multiset([1, 1]) * multiset([2, 3])| == 0
  {
    assert multiset([1, 1]) * multiset([2, 3]) == multiset{};
  }

  /** Repeated secret values already matched exactly leave nothing for the other guess values. */
  lemma ScoreSecretDuplicates()
    ensures Score([0, 1, 1, 1], [0, 1, 2, 3]) == Feedback(2, 0)
  {
    ScoreFromParts([0, 1, 1, 1], [0, 1, 2, 3], [1, 1], [2, 3]);
    ScoreSecretDuplicatesCommon();
  }

  lemma ScoreRepeatedValuesCommon()
    ensures |multiset([1, 2, 3]) * multiset([4, 1, 1])| == 1
  {
    assert multiset([1, 2, 3]) * multiset([4, 1, 1]) == multiset{1};
  }

  /** A secret value left over matches only one of several equal guess values. */
  lemma ScoreRepeatedValues()
    ensures Score([1, 1, 2, 3], [1, 4, 1, 1]) == Feedback(1, 1)
  {
    ScoreFromParts([1, 1, 2, 3], [1, 4, 1, 1], [1, 2, 3], [4, 1, 1]);
    ScoreRepeatedValuesCommon();
  }

  lemma ScoreRepeatedSecretValueCommon()
    ensures |multiset([1, 1, 1]) * multiset([0, 0, 0])| == 0
  {
    assert multiset([1, 1, 1]) * multiset([0, 0, 0]) == multiset{};
  }

  /** A guess value consumed by its exact match is not counted again. */
  lemma ScoreRepeatedSecretValue()
    ensures Score([0, 1, 1, 1], [0, 0, 0, 0]) == Feedback(1, 0)
  {
    ScoreFromParts([0, 1, 1, 1], [0, 0, 0, 0], [1, 1, 1], [0, 0, 0]);
    ScoreRepeatedSecretValueCommon();
  }

  lemma ScoreOneAndOneCommon()
    ensures |multiset([2, 3, 4]) * multiset([1, 2, 2])| == 1
  {
    assert multiset([2, 3, 4]) * multiset([1, 2, 2]) == multiset{2};
  }

  /** One exact and one partial match, as in the board's tests. */
  lemma ScoreOneAndOne()
    ensures Score([1, 2, 3, 4], [1, 1, 2, 2]) == Feedback(1, 1)
  {
    ScoreFromParts([1, 2, 3, 4], [1, 1, 2, 2], [2, 3, 4], [1, 2, 2]);
    ScoreOneAndOneCommon();
  }

  lemma ScoreRepeatedBothCommon()
    ensures |multiset([0, 1, 1]) * multiset([1, 2, 3])| == 1
  {
    assert multiset([0, 1, 1]) * multiset([1, 2, 3]) == multiset{1};
  }

  /** A partial match is counted once however often the value repeats. */
  lemma ScoreRepeatedBoth()
    ensures Score([0, 1, 1, 1], [1, 1, 2, 3]) == Feedback(1, 1)
  {
    ScoreFromParts([0, 1, 1, 1], [1, 1, 2, 3], [0, 1, 1], [1, 2, 3]);
    ScoreRepeatedBothCommon();
  }

  lemma ScoreFrontSwappedCommon()
    ensures |multiset([0, 1]) * multiset([1, 0])| == 2
  {
    assert multiset([0, 1]) * multiset([1, 0]) == multiset{0, 1};
  }

  lemma ScoreFrontSwapped()
    ensures Score([0, 1, 2, 3], [1, 0, 2, 3]) == Feedback(2, 2)
  {
    ScoreFromParts([0, 1, 2, 3], [1, 0, 2, 3], [0, 1], [1, 0]);
    ScoreFrontSwappedCommon();
  }

  lemma ScoreThreeExactCommon()
    ensures |multiset([3]) * multiset([5])| == 0
  {
    assert multiset([3]) * multiset([5]) == multiset{};
  }

  lemma ScoreThreeExact()
    ensures Score([0, 1, 2, 3], [0, 1, 2, 5]) == Feedback(3, 0)
  {
    ScoreFromParts([0, 1, 2, 3], [0, 1, 2, 5], [3], [5]);
    ScoreThreeExactCommon();
  }

  lemma ScoreTwoExactCommon()
    ensures |multiset([2, 3]) * multiset([5, 5])| == 0
  {
    assert multiset([2, 3]) * multiset([5, 5]) == multiset{};
  }

  lemma ScoreTwoExact()
    ensures Score([0, 1, 2, 3], [0, 1, 5, 5]) == Feedback(2, 0)
  {
    ScoreFromParts([0, 1, 2, 3], [0, 1, 5, 5], [2, 3], [5, 5]);
    ScoreTwoExactCommon();
  }

  /**
   * Feedback compares by its two counts: two different guesses with the same
   * counts give equal feedback, and a difference in either count makes it unequal.
   */
  lemma FeedbackEqualityExamples()
    ensures Score([0, 1, 2, 3], [0, 1, 3, 2]) == Score([0, 1, 2, 3], [1, 0, 2, 3])
    ensures Score([0, 1, 2, 3], [0, 1, 2, 3]) != Score([0, 1, 2, 3], [0, 1, 2, 5])
    ensures Score([0, 1, 2, 3], [0, 1, 3, 2]) != Score([0, 1, 2, 3], [0, 1, 5, 5])
  {
    ScoreTwoSwapped();
    ScoreFrontSwapped();
    ScoreSelf([0, 1, 2, 3]);
    ScoreThreeExact();
    ScoreTwoExact();
  }

  // ---------------------------------------------------------------------
  // The two-pass algorithm on the copied value arrays (nil is None)
  // ---------------------------------------------------------------------

  /** The copy of a value array that the algorithm starts from. */
  function Wrap(s: seq<int>): (r: seq<Option<int>>)
    ensures |r| == |s|
  {
    seq(|s|, i requires 0 <= i < |s| => Some(s[i]))
  }

  /** The copy of s after the first pass: exact positions blanked. */
  function Marked(s: seq<int>, g: seq<int>): (r: seq<Option<int>>)
    ensures |r| == |s|
  {
    seq(|s|, i requires 0 <= i < |s| => if MatchAt(s, g, i) then None else Some(s[i]))
  }

  /** The values not yet blanked, in order. */
  function Present(a: seq<Option<int>>): seq<int>
  {
    if |a| == 0 then [] else (if a[0].Some? then [a[0].value] else []) + Present(a[1..])
  }

  lemma {:induction false} PresentAppend(a: seq<Option<int>>, b: seq<Option<int>>)
    ensures Present(a + b) == Present(a) + Present(b)
  {
    if |a| == 0 {
      assert a + b == b;
    } else {
      assert (a + b)[0] == a[0];
      assert (a + b)[1..] == a[1..] + b;
      PresentAppend(a[1..], b);
    }
  }

  lemma PresentOne(x: Option<int>)
    ensures Present([x]) == if x.Some? then [x.value] else []
  {
    assert [x][1..] == [];
  }

  lemma {:induction false} PresentMarked(s: seq<int>, g: seq<int>, k: nat)
    requires k <= |s|
    ensures Present(Marked(s, g)[..k]) == Unmatched(s, g, k)
  {
    if k > 0 {
      var m := Marked(s, g);
      PresentMarked(s, g, k - 1);
      assert m[..k] == m[..k - 1] + [m[k - 1]];
      PresentAppend(m[..k - 1], [m[k - 1]]);
      PresentOne(m[k - 1]);
    }
  }

  lemma PresentMarkedAll(s: seq<int>, g: seq<int>)
    ensures Present(Marked(s, g)) == Unmatched(s, g, |s|)
  {
    PresentMarked(s, g, |s|);
    assert Marked(s, g)[..|s|] == Marked(s, g);
  }

  /** Blanking a present value removes exactly one occurrence of it. */
  lemma PresentClear(a: seq<Option<int>>, j: nat)
    requires j < |a| && a[j].Some?
    ensures a[j].value in multiset(Present(a))
    ensures multiset(Present(a[j := None])) == multiset(Present(a)) - multiset{a[j].value}
  {
    var front, back := a[..j], a[j + 1..];
    assert a == front + ([a[j]] + back);
    assert a[j := None] == front + ([None] + back);
    PresentAppend(front, [a[j]] + back);
    PresentAppend([a[j]], back);
    PresentAppend(front, [None] + back);
    PresentAppend([None], back);
    PresentOne(a[j]);
    PresentOne(None);
  }

  lemma {:induction false} PresentAbsent(a: seq<Option<int>>, v: int)
    requires forall k :: 0 <= k < |a| ==> a[k] != Some(v)
    ensures v !in multiset(Present(a))
  {
    if |a| > 0 { PresentAbsent(a[1..], v); }
  }

  /** Ruby's Array#index: the first position holding v, or -1 for nil. */
  function FirstIndex(a: seq<Option<int>>, v: int): (r: int)
    ensures -1 <= r < |a|
    ensures r >= 0 ==> a[r] == Some(v) && forall k :: 0 <= k < r ==> a[k] != Some(v)
    ensures r < 0 ==> forall k :: 0 <= k < |a| ==> a[k] != Some(v)
  {
    if |a| == 0 then -1
    else if a[0] == Some(v) then 0
    else
      var r := FirstIndex(a[1..], v);
      if r < 0 then -1 else r + 1
  }

  /** One greedy step: secret value v consumes one remaining guess value, if any is left. */
  lemma ConsumeStep(p: multiset<int>, g: multiset<int>, v: int)
    ensures (g - p) - multiset{v} == g - (p + multiset{v})
    ensures v in g - p ==> (p + multiset{v}) * g == p * g + multiset{v}
    ensures v !in g - p ==> (p + multiset{v}) * g == p * g && g - (p + multiset{v}) == g - p
  {
  }

  lemma PresentPrefixStep(a: seq<Option<int>>, i: nat)
    requires i < |a|
    ensures multiset(Present(a[..i + 1])) ==
      multiset(Present(a[..i])) + (if a[i].Some? then multiset{a[i].value} else multiset{})
  {
    assert a[..i + 1] == a[..i] + [a[i]];
    PresentAppend(a[..i], [a[i]]);
    PresentOne(a[i]);
  }

  /** A remaining guess value equal to v is blanked: one more partial match. */
  lemma ConsumeFound(gs: seq<Option<int>>, j: nat, done: multiset<int>, g0: multiset<int>)
    requires j < |gs| && gs[j].Some?
    requires multiset(Present(gs)) == g0 - done
    ensures multiset(Present(gs[j := None])) == g0 - (done + multiset{gs[j].value})
    ensures |(done + multiset{gs[j].value}) * g0| == |done * g0| + 1
  {
    PresentClear(gs, j);
    ConsumeStep(done, g0, gs[j].value);
  }

  /** No remaining guess value equals v: nothing is consumed. */
  lemma ConsumeAbsent(gs: seq<Option<int>>, v: int, done: multiset<int>, g0: multiset<int>)
    requires forall k :: 0 <= k < |gs| ==> gs[k] != Some(v)
    requires multiset(Present(gs)) == g0 - done
    ensures g0 - (done + multiset{v}) == g0 - done
    ensures (done + multiset{v}) * g0 == done * g0
  {
    PresentAbsent(gs, v);
    ConsumeStep(done, g0, v);
  }

  /**
   * First pass: count the positions where both copies agree and blank both
   * entries there.
   */
  method CountAndRemoveExactMatches(secretValues: array<Option<int>>, guessValues: array<Option<int>>,
                                    ghost secret: seq<int>, ghost guess: seq<int>) returns (exact: nat)
    requires secretValues != guessValues
    requires secretValues[..] == Wrap(secret) && guessValues[..] == Wrap(guess)
    modifies secretValues, guessValues
    ensures exact == ExactMatches(secret, guess)
    ensures secretValues[..] == Marked(secret, guess) && guessValues[..] == Marked(guess, secret)
  {
    exact := 0;
    for i := 0 to secretValues.Length
      invariant exact == ExactPrefix(secret, guess, i)
      invariant forall j :: 0 <= j < secretValues.Length ==>
        secretValues[j] == if j < i && MatchAt(secret, guess, j) then None else Some(secret[j])
      invariant forall j :: 0 <= j < guessValues.Length ==>
        guessValues[j] == if j < i && MatchAt(secret, guess, j) then None else Some(guess[j])
    {
      if i < guessValues.Length && guessValues[i] == secretValues[i] {
        exact := exact + 1;
        secretValues[i] := None;
        guessValues[i] := None;
      }
    }
    assert secretValues[..] == Marked(secret, guess);
    assert guessValues[..] == Marked(guess, secret);
  }

  /** Each entry still holds its original value or has been blanked. */
  ghost predicate Blanked(g0: seq<Option<int>>, cur: seq<Option<int>>)
  {
    |cur| == |g0| && forall k :: 0 <= k < |cur| ==> cur[k] == g0[k] || cur[k] == None
  }

  /** Within each value, a later occurrence is blanked only after every earlier one. */
  ghost predicate EarliestFirst(g0: seq<Option<int>>, cur: seq<Option<int>>)
    requires |cur| == |g0|
  {
    forall j, k :: (0 <= j < k < |cur| && g0[j] == g0[k] && g0[k].Some? && cur[k] == None) ==> cur[j] == None
  }

  /** Blanking the first remaining occurrence of v keeps both properties. */
  lemma ClearFirst(g0: seq<Option<int>>, cur: seq<Option<int>>, v: int, j: int)
    requires Blanked(g0, cur) && EarliestFirst(g0, cur)
    requires j == FirstIndex(cur, v) && j >= 0
    ensures Blanked(g0, cur[j := None]) && EarliestFirst(g0, cur[j := None])
  {
    var next := cur[j := None];
    forall a, b | 0 <= a < b < |next| && g0[a] == g0[b] && g0[b].Some? && next[b] == None
      ensures next[a] == None
    {
      if b == j {
        assert cur[a] != Some(v);
      }
    }
  }

  /** What the second pass keeps true of the guess copy after consuming the multiset `consumed`. */
  ghost predicate PassState(g0: seq<Option<int>>, remaining0: multiset<int>, consumed: multiset<int>,
                            cur: seq<Option<int>>)
  {
    multiset(Present(cur)) == remaining0 - consumed && Blanked(g0, cur) && EarliestFirst(g0, cur)
  }

  /** One step of the second pass for secret value v, found or not. */
  lemma PartialStep(g0: seq<Option<int>>, remaining0: multiset<int>, consumed: multiset<int>,
                    cur: seq<Option<int>>, v: int)
    requires PassState(g0, remaining0, consumed, cur)
    ensures var j := FirstIndex(cur, v);
      && (j >= 0 ==> PassState(g0, remaining0, consumed + multiset{v}, cur[j := None])
                     && |(consumed + multiset{v}) * remaining0| == |consumed * remaining0| + 1)
      && (j < 0 ==> PassState(g0, remaining0, consumed + multiset{v}, cur)
                    && (consumed + multiset{v}) * remaining0 == consumed * remaining0)
  {
    var j := FirstIndex(cur, v);
    if j >= 0 {
      ConsumeFound(cur, j, consumed, remaining0);
      ClearFirst(g0, cur, v, j);
    } else {
      ConsumeAbsent(cur, v, consumed, remaining0);
    }
  }

  /**
   * Second pass: each remaining secret value, in order, consumes the first
   * remaining equal guess value. The consumed values are exactly the
   * multiset intersection, the guess values left over are the multiset
   * difference, and within each value the earliest occurrences go first.
   */
  method CountAndRemovePartialMatches(secretValues: array<Option<int>>, guessValues: array<Option<int>>)
    returns (partial: nat)
    requires secretValues != guessValues
    modifies guessValues
    ensures partial == |multiset(Present(secretValues[..])) * multiset(Present(old(guessValues[..])))|
    ensures multiset(Present(guessValues[..])) ==
      multiset(Present(old(guessValues[..]))) - multiset(Present(secretValues[..]))
    ensures Blanked(old(guessValues[..]), guessValues[..]) && EarliestFirst(old(guessValues[..]), guessValues[..])
  {
    ghost var g0 := guessValues[..];
    ghost var sv := secretValues[..];
    ghost var remaining0 := multiset(Present(g0));
    ghost var consumed: multiset<int> := multiset{};
    partial := 0;
    for i := 0 to secretValues.Length
      invariant secretValues[..] == sv
      invariant consumed == multiset(Present(sv[..i]))
      invariant partial == |consumed * remaining0|
      invariant PassState(g0, remaining0, consumed, guessValues[..])
    {
      PresentPrefixStep(sv, i);
      var value := secretValues[i];
      if value.Some? {
        var v := value.value;
        ghost var before := guessValues[..];
        var guessIndex := FirstIndex(guessValues[..], v);
        PartialStep(g0, remaining0, consumed, before, v);
        if guessIndex >= 0 {
          partial := partial + 1;
          guessValues[guessIndex] := None;
          assert guessValues[..] == before[guessIndex := None];
        }
        consumed := consumed + multiset{v};
      }
    }
    assert sv[..|sv|] == sv;
  }

  /** The source's Feedback constructor: score two codes by the two passes over copies of their values. */
  method ComputeFeedback(secret: seq<int>, guess: seq<int>) returns (fb: Feedback)
    ensures fb == Score(secret, guess)
  {
    var secretValues := new Option<int>[|secret|](i requires 0 <= i < |secret| => Some(secret[i]));
    var guessValues := new Option<int>[|guess|](i requires 0 <= i < |guess| => Some(guess[i]));
    assert secretValues[..] == Wrap(secret);
    assert guessValues[..] == Wrap(guess);
    var exact := CountAndRemoveExactMatches(secretValues, guessValues, secret, guess);
    var partial := CountAndRemovePartialMatches(secretValues, guessValues);
    PresentMarkedAll(secret, guess);
    PresentMarkedAll(guess, secret);
    fb := Feedback(exact, partial);
  }

  /**
   * The source's Feedback as an object, with Ruby's default `==`: object
   * identity. Used only to exhibit what pruning does under that equality.
   */
  class FeedbackObject {
    const exactMatches: nat
    const partialMatches: nat

    constructor (secret: seq<int>, guess: seq<int>)
      ensures Feedback(exactMatches, partialMatches) == Score(secret, guess)
    {
      var fb := ComputeFeedback(secret, guess);
      exactMatches := fb.exactMatches;
      partialMatches := fb.partialMatches;
    }
  }
}
