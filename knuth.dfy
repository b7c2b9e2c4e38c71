/**
 * Knuth's minimax guessing strategy. The strategy keeps the set of codes
 * still consistent with every feedback seen so far. Each turn it scores every
 * code not yet played by the number of candidates it is guaranteed to
 * eliminate, whatever feedback it earns. It keeps the codes with the highest
 * score, prefers those that could still be the secret, and takes the least
 * of them.
 */
module Knuth {
  import opened Wrappers
  import opened Codes
  import opened Scoring
  import opened Boards

  // ---------------------------------------------------------------------
  // Least and greatest of a non-empty set of integers (Ruby's min and max)
  // ---------------------------------------------------------------------

  predicate IsMin(m: int, s: set<int>)
  {
    m in s && forall x :: x in s ==> m <= x
  }

  predicate IsMax(m: int, s: set<int>)
  {
    m in s && forall x :: x in s ==> x <= m
  }

  /**
   * A non-empty set has a member to pick. Stated on its own because a
   * `var x :| x in s` over integers does not find the witness by itself.
   */
  lemma HasElement(s: set<int>)
    requires s != {}
    ensures exists x :: x in s
  {
    if forall x :: x !in s {
      assert false;
    }
  }

  lemma {:induction false} MinExists(s: set<int>)
    requires s != {}
    ensures exists m :: IsMin(m, s)
    decreases |s|
  {
    HasElement(s);
    var x :| x in s;
    var rest := s - {x};
    if rest == {} {
      assert s == {x};
      assert IsMin(x, s);
    } else {
      MinExists(rest);
      var m :| IsMin(m, rest);
      var least := if x <= m then x else m;
      forall y | y in s ensures least <= y {
        if y != x { assert y in rest; }
      }
      assert IsMin(least, s);
    }
  }

  lemma {:induction false} MaxExists(s: set<int>)
    requires s != {}
    ensures exists m :: IsMax(m, s)
    decreases |s|
  {
    HasElement(s);
    var x :| x in s;
    var rest := s - {x};
    if rest == {} {
      assert s == {x};
      assert IsMax(x, s);
    } else {
      MaxExists(rest);
      var m :| IsMax(m, rest);
      var greatest := if m <= x then x else m;
      forall y | y in s ensures y <= greatest {
        if y != x { assert y in rest; }
      }
      assert IsMax(greatest, s);
    }
  }

  function MinOf(s: set<int>): (m: int)
    requires s != {}
    ensures m in s && forall x :: x in s ==> m <= x
  {
    MinExists(s);
    var m :| IsMin(m, s); m
  }

  function MaxOf(s: set<int>): (m: int)
    requires s != {}
    ensures m in s && forall x :: x in s ==> x <= m
  {
    MaxExists(s);
    var m :| IsMax(m, s); m
  }

  // ---------------------------------------------------------------------
  // Specification of pruning and of the minimax score
  // ---------------------------------------------------------------------

  /** The candidates that, were they the secret, would have earned the turn's feedback. */
  ghost function Prune(candidates: set<Code>, turn: Turn): set<Code>
  {
    set c | c in candidates && Score(c.values, turn.guess.values) == turn.feedback
  }

  /** The codes of a universe consistent with every turn of a history. */
  ghost function Consistent(universe: set<Code>, turns: seq<Turn>): set<Code>
  {
    set c | c in universe && forall i :: 0 <= i < |turns| ==> Score(c.values, turns[i].guess.values) == turns[i].feedback
  }

  /** The codes guessed so far. */
  function GuessesOf(turns: seq<Turn>): set<Code>
  {
    set t | t in turns :: t.guess
  }

  /** The feedback each candidate, were it the secret, would give guess g. */
  ghost function Responses(candidates: set<Code>, g: Code): map<Code, Feedback>
  {
    map c | c in candidates :: Score(c.values, g.values)
  }

  /** The candidates that give feedback f. */
  function Class(responses: map<Code, Feedback>, f: Feedback): set<Code>
  {
    set c | c in responses && responses[c] == f
  }

  /** For each feedback that occurs, how many candidates give it. */
  function Tally(responses: map<Code, Feedback>): map<Feedback, nat>
  {
    map f | f in responses.Values :: |Class(responses, f)|
  }

  /** For each feedback that occurs, how many candidates it would rule out. */
  function Eliminations(responses: map<Code, Feedback>): set<int>
  {
    set f | f in responses.Values :: |responses| - |Class(responses, f)|
  }

  lemma EliminationsNonEmpty(responses: map<Code, Feedback>)
    requires |responses| > 0
    ensures Eliminations(responses) != {}
  {
    var c :| c in responses;
    var f := responses[c];
    assert f in responses.Values;
    assert |responses| - |Class(responses, f)| in Eliminations(responses);
  }

  /**
   * The number of candidates a guess is guaranteed to rule out, whatever
   * feedback it earns: the least elimination count; 0 when no candidate is left.
   */
  function Minimax(responses: map<Code, Feedback>): int
  {
    if |responses| == 0 then 0
    else
      EliminationsNonEmpty(responses);
      MinOf(Eliminations(responses))
  }

  lemma ClassBounds(responses: map<Code, Feedback>, f: Feedback)
    ensures |Class(responses, f)| <= |responses|
    ensures f in responses.Values ==> |Class(responses, f)| >= 1
  {
    assert Class(responses, f) <= responses.Keys;
    assert |responses.Keys| == |responses|;
    SubsetCard(Class(responses, f), responses.Keys);
    if f in responses.Values {
      var c :| c in responses && responses[c] == f;
      assert c in Class(responses, f);
    }
  }

  lemma {:induction false} SubsetCard<T>(a: set<T>, b: set<T>)
    requires a <= b
    ensures |a| <= |b|
    decreases |b|
  {
    if a != {} {
      var x :| x in a;
      SubsetCard(a - {x}, b - {x});
    }
  }

  /**
   * With candidates left, the minimax score is at most one less than their
   * number, and it is exactly the worst case over the candidates: no
   * candidate's feedback class rules out fewer, and some class rules out that few.
   */
  lemma MinimaxIsWorstCase(responses: map<Code, Feedback>)
    requires |responses| > 0
    ensures 0 <= Minimax(responses) <= |responses| - 1
    ensures forall c :: c in responses ==> Minimax(responses) <= |responses| - |Class(responses, responses[c])|
    ensures exists c :: c in responses && Minimax(responses) == |responses| - |Class(responses, responses[c])|
  {
    var m := Minimax(responses);
    var f :| f in responses.Values && m == |responses| - |Class(responses, f)|;
    ClassBounds(responses, f);
    forall c | c in responses ensures m <= |responses| - |Class(responses, responses[c])| {
      assert responses[c] in responses.Values;
      assert |responses| - |Class(responses, responses[c])| in Eliminations(responses);
    }
    var w :| w in responses && responses[w] == f;
  }

  /** A guess rules nothing out for sure exactly when every candidate gives it the same feedback. */
  lemma MinimaxZeroIffNoSplit(responses: map<Code, Feedback>)
    ensures Minimax(responses) == 0 <==> |responses.Values| <= 1
  {
    if |responses| > 0 {
      var m := Minimax(responses);
      var f :| f in responses.Values && m == |responses| - |Class(responses, f)|;
      if |responses.Values| <= 1 {
        forall c | c in responses ensures c in Class(responses, f) {
          assert responses[c] in responses.Values;
          SingletonValues(responses.Values, f, responses[c]);
        }
        assert Class(responses, f) == responses.Keys;
      } else {
        var f2 := OtherValue(responses.Values, f);
        var c2 :| c2 in responses && responses[c2] == f2;
        assert c2 !in Class(responses, f);
        ProperSubsetCard(Class(responses, f), responses.Keys, c2);
      }
    } else {
      assert responses.Values == {};
    }
  }

  lemma SingletonValues(s: set<Feedback>, a: Feedback, b: Feedback)
    requires |s| <= 1 && a in s && b in s
    ensures a == b
  {
    if a != b {
      assert {a, b} <= s;
      SubsetCard({a, b}, s);
    }
  }

  lemma OtherValue(s: set<Feedback>, a: Feedback) returns (b: Feedback)
    requires |s| > 1
    ensures b in s && b != a
  {
    var x :| x in s;
    if x != a {
      b := x;
    } else {
      assert |s - {a}| > 0;
      b :| b in s - {a};
    }
  }

  lemma ProperSubsetCard(a: set<Code>, b: set<Code>, x: Code)
    requires a <= b && x in b && x !in a
    ensures |a| < |b|
  {
    SubsetCard(a, b - {x});
  }

  ghost function MinimaxScore(candidates: set<Code>, g: Code): int
  {
    Minimax(Responses(candidates, g))
  }

  /**
   * A guess's minimax score is 0 when no candidate is left and otherwise
   * lies between 0 and one less than the number of candidates.
   */
  lemma MinimaxScoreBounds(candidates: set<Code>, g: Code)
    ensures candidates == {} ==> MinimaxScore(candidates, g) == 0
    ensures candidates != {} ==> 0 <= MinimaxScore(candidates, g) <= |candidates| - 1
  {
    var responses := Responses(candidates, g);
    assert responses.Keys == candidates;
    assert |responses| == |candidates| by {
      assert |responses.Keys| == |responses|;
    }
    if candidates != {} {
      MinimaxIsWorstCase(responses);
    }
  }

  ghost function ScoresOf(candidates: set<Code>, unused: set<Code>): map<Code, int>
  {
    map g | g in unused :: MinimaxScore(candidates, g)
  }

  /** The codes no other scored code outscores. */
  function BestOf(scores: map<Code, int>): set<Code>
  {
    set g | g in scores && forall h :: h in scores ==> scores[h] <= scores[g]
  }

  /** The unused codes with the highest minimax score. */
  ghost function BestGuesses(candidates: set<Code>, unused: set<Code>): set<Code>
  {
    BestOf(ScoresOf(candidates, unused))
  }

  /** Some code always has the highest score, and every best code is a scored code. */
  lemma BestOfNonEmpty(scores: map<Code, int>)
    ensures BestOf(scores) <= scores.Keys
    ensures BestOf(scores) == {} <==> |scores| == 0
  {
    if |scores| > 0 {
      var c :| c in scores;
      assert scores[c] in scores.Values;
      var top := MaxOf(scores.Values);
      var g :| g in scores && scores[g] == top;
      forall h | h in scores ensures scores[h] <= scores[g] {
        assert scores[h] in scores.Values;
      }
      assert g in BestOf(scores);
    }
  }

  /**
   * The tie-break among the best guesses: the least (by Code#<=>) of those
   * that are still candidates, or of all of them when none is; nothing when
   * there is no best guess.
   */
  function TieBreak(best: set<Code>, candidates: set<Code>): (r: Option<Code>)
    ensures r.None? <==> best == {}
    ensures r.Some? ==> r.value in best
    ensures r.Some? && best * candidates != {} ==>
      r.value in candidates && forall x :: x in best * candidates ==> Compare(r.value.values, x.values) <= 0
    ensures r.Some? && best * candidates == {} ==> forall x :: x in best ==> Compare(r.value.values, x.values) <= 0
  {
    var preferred := best * candidates;
    if preferred != {} then Some(LeastCode(preferred))
    else if best != {} then Some(LeastCode(best))
    else None
  }

  ghost function ChooseGuess(candidates: set<Code>, unused: set<Code>): Option<Code>
  {
    TieBreak(BestGuesses(candidates, unused), candidates)
  }

  // ---------------------------------------------------------------------
  // The first guess
  // ---------------------------------------------------------------------

  /**
   * Knuth's opening 0011 generalised: the first half (rounded up) of the
   * positions hold the range's first value and the rest the next value; a
   * range of fewer than two values repeats its first value throughout.
   */
  function FirstGuessValues(codeLength: nat, lo: int, hi: int): (r: seq<int>)
    ensures |r| == codeLength
  {
    if RangeSize(lo, hi) < 2 then Repeat(lo, codeLength)
    else
      var firstHalf := (codeLength + 1) / 2;
      Repeat(lo, firstHalf) + Repeat(lo + 1, codeLength - firstHalf)
  }

  /**
   * The opening as a Code: valid exactly when the length is positive and the
   * range is not empty; a zero length is refused for its length and an empty
   * range for its values.
   */
  function FirstGuess(codeLength: nat, lo: int, hi: int): (r: Result<Code, CodeError>)
    ensures r.Success? <==> codeLength > 0 && lo <= hi
    ensures r.Success? ==> r.value.values == FirstGuessValues(codeLength, lo, hi)
    ensures r.Failure? ==> r.error == if codeLength == 0 then NonPositiveLength else ValueOutOfRange
  {
    var values := FirstGuessValues(codeLength, lo, hi);
    assert codeLength > 0 && lo > hi ==> !InRange(values, lo, hi) by {
      if codeLength > 0 && lo > hi {
        assert values[0] == lo;
      }
    }
    NewCode(values, codeLength, lo, hi)
  }

  /** Repeat(v, k) holds k copies of v and nothing else. */
  lemma {:induction false} RepeatCount(v: int, k: nat)
    ensures multiset(Repeat(v, k)) == multiset{}[v := k]
  {
    if k > 0 {
      RepeatCount(v, k - 1);
      assert Repeat(v, k) == Repeat(v, k - 1) + [v];
    }
  }

  /**
   * Over a range of at least two values, the first guess is sorted and uses
   * only the first two values, the first at least as often as the second
   * and at most once more.
   */
  lemma FirstGuessBalanced(codeLength: nat, lo: int, hi: int)
    requires RangeSize(lo, hi) >= 2
    ensures var r := FirstGuessValues(codeLength, lo, hi);
      && multiset(r)[lo] + multiset(r)[lo + 1] == codeLength
      && 0 <= multiset(r)[lo] - multiset(r)[lo + 1] <= 1
      && (forall i, j :: 0 <= i <= j < |r| ==> r[i] <= r[j])
  {
    var firstHalf := (codeLength + 1) / 2;
    RepeatCount(lo, firstHalf);
    RepeatCount(lo + 1, codeLength - firstHalf);
  }

  /** Over a range of fewer than two values, every position holds the range's first value. */
  lemma FirstGuessSingleValue(codeLength: nat, lo: int, hi: int)
    requires RangeSize(lo, hi) < 2
    ensures multiset(FirstGuessValues(codeLength, lo, hi)) == multiset{}[lo := codeLength]
  {
    RepeatCount(lo, codeLength);
  }

  /** The openings the source's tests expect: 0011 over 0..5 and 1111 over 1..1. */
  lemma FirstGuessExamples()
    ensures FirstGuess(4, 0, 5) == Success(Code([0, 0, 1, 1]))
    ensures FirstGuess(4, 1, 1) == Success(Code([1, 1, 1, 1]))
  {
    assert FirstGuessValues(4, 0, 5) == [0, 0, 1, 1];
    assert FirstGuessValues(4, 1, 1) == [1, 1, 1, 1];
  }

  // ---------------------------------------------------------------------
  // Properties of pruning and of the choice
  // ---------------------------------------------------------------------

  /** Pruning the codes consistent with a history by one more turn gives those consistent with the longer history. */
  lemma PruneConsistent(universe: set<Code>, turns: seq<Turn>, turn: Turn)
    ensures Prune(Consistent(universe, turns), turn) == Consistent(universe, turns + [turn])
  {
    var longer := turns + [turn];
    forall c | c in universe
      ensures (c in Prune(Consistent(universe, turns), turn)) == (c in Consistent(universe, longer))
    {
      if c in Consistent(universe, longer) {
        forall i | 0 <= i < |turns|
          ensures Score(c.values, turns[i].guess.values) == turns[i].feedback
        {
          assert longer[i] == turns[i];
        }
        assert longer[|turns|] == turn;
      }
    }
  }

  /** The secret is consistent with every turn of a history scored against it. */
  lemma SecretConsistent(universe: set<Code>, secret: Code, turns: seq<Turn>)
    requires secret in universe && Recorded(secret, turns)
    ensures secret in Consistent(universe, turns)
  {
    assert forall i :: 0 <= i < |turns| ==> Score(secret.values, turns[i].guess.values) == turns[i].feedback;
  }

  /**
   * Soundness of pruning: the secret, when still a candidate, survives
   * pruning by a turn whose feedback was scored against it.
   */
  /**
   * One pruning step as the strategy takes it: it extends consistency with
   * the earlier turns to consistency with all of them, and keeps a secret
   * the turns were scored against.
   */
  lemma PruneStep(universe: set<Code>, candidates: set<Code>, turns: seq<Turn>, secret: Code)
    requires |turns| > 0
    ensures candidates == Consistent(universe, turns[..|turns| - 1]) ==>
      Prune(candidates, turns[|turns| - 1]) == Consistent(universe, turns)
    ensures Recorded(secret, turns) && secret in candidates ==>
      secret in Prune(candidates, turns[|turns| - 1])
  {
    var last := turns[|turns| - 1];
    assert turns == turns[..|turns| - 1] + [last];
    PruneConsistent(universe, turns[..|turns| - 1], last);
    if Recorded(secret, turns) && secret in candidates {
      SecretSurvivesPruning(candidates, secret, turns);
    }
  }

  lemma SecretSurvivesPruning(candidates: set<Code>, secret: Code, turns: seq<Turn>)
    requires |turns| > 0 && Recorded(secret, turns) && secret in candidates
    ensures secret in Prune(candidates, turns[|turns| - 1])
  {
    var last := turns[|turns| - 1];
    assert last.feedback == Score(secret.values, last.guess.values);
  }

  /**
   * A guess chosen among the codes not yet played is a code of the universe
   * that no turn has guessed; there is none exactly when every code of the
   * universe has been played.
   */
  lemma GuessesNeverRepeat(candidates: set<Code>, universe: set<Code>, turns: seq<Turn>)
    ensures var r := ChooseGuess(candidates, universe - GuessesOf(turns));
      && (r.None? <==> universe <= GuessesOf(turns))
      && (r.Some? ==> r.value in universe && forall i :: 0 <= i < |turns| ==> turns[i].guess != r.value)
  {
    var unused := universe - GuessesOf(turns);
    ChooseGuessSpec(candidates, unused);
    var r := ChooseGuess(candidates, unused);
    if r.Some? {
      forall i | 0 <= i < |turns| ensures turns[i].guess != r.value {
        assert turns[i] in turns;
        assert turns[i].guess in GuessesOf(turns);
      }
    }
    if unused == {} {
      assert universe <= GuessesOf(turns) by {
        forall c | c in universe ensures c in GuessesOf(turns) {
          assert c !in unused;
        }
      }
    }
  }

  /**
   * The choice among unused codes: nothing exactly when no code is unused;
   * otherwise an unused code with the highest minimax score, one that is
   * still a candidate whenever some best code is, and the least such code.
   */
  lemma ChooseGuessSpec(candidates: set<Code>, unused: set<Code>)
    ensures ChooseGuess(candidates, unused).None? <==> unused == {}
    ensures ChooseGuess(candidates, unused).Some? ==>
      var g := ChooseGuess(candidates, unused).value;
      && g in unused
      && (forall h :: h in unused ==> MinimaxScore(candidates, h) <= MinimaxScore(candidates, g))
      && (BestGuesses(candidates, unused) * candidates != {} ==> g in candidates)
  {
    var scores := ScoresOf(candidates, unused);
    BestOfNonEmpty(scores);
    assert scores.Keys == unused;
    assert |scores| == 0 <==> unused == {} by {
      assert |scores.Keys| == |scores|;
    }
  }

  /** Two codes over distinct constant values compare by those values. */
  lemma CompareConstant(a: int, b: int)
    requires a < b
    ensures Compare(Repeat(a, 4), Repeat(b, 4)) == -1
  {
    assert Repeat(a, 4)[0] == a && Repeat(b, 4)[0] == b;
  }

  /**
   * The two tie-breaks exercised by the source's tests, with best guesses
   * 3333 and 2222: when 3333 is also a candidate it is chosen; when neither
   * is a candidate the lesser, 2222, is chosen.
   */
  lemma TieBreakExamples()
    ensures TieBreak({Code(Repeat(3, 4)), Code(Repeat(2, 4))},
                     {Code(Repeat(0, 4)), Code(Repeat(1, 4)), Code(Repeat(3, 4))}) == Some(Code(Repeat(3, 4)))
    ensures TieBreak({Code(Repeat(3, 4)), Code(Repeat(2, 4))},
                     {Code(Repeat(0, 4)), Code(Repeat(1, 4))}) == Some(Code(Repeat(2, 4)))
  {
    var c0, c1, c2, c3 := Code(Repeat(0, 4)), Code(Repeat(1, 4)), Code(Repeat(2, 4)), Code(Repeat(3, 4));
    assert c2 != c3 by { assert c2.values[0] != c3.values[0]; }
    assert c0 != c3 by { assert c0.values[0] != c3.values[0]; }
    assert c1 != c3 by { assert c1.values[0] != c3.values[0]; }
    assert c0 != c2 by { assert c0.values[0] != c2.values[0]; }
    assert c1 != c2 by { assert c1.values[0] != c2.values[0]; }
    assert {c3, c2} * {c0, c1, c3} == {c3};
    assert {c3, c2} * {c0, c1} == {};
    CompareConstant(2, 3);
    CompareFlip(c2.values, c3.values);
  }

  // ---------------------------------------------------------------------
  // Building the tally one candidate at a time
  // ---------------------------------------------------------------------

  /** Recording one more candidate adds its feedback to the feedbacks that occur. */
  lemma ValuesAdd(responses: map<Code, Feedback>, c: Code, f: Feedback)
    requires c !in responses
    ensures responses[c := f].Values == responses.Values + {f}
  {
    var next := responses[c := f];
    forall x | x in next.Values ensures x in responses.Values + {f} {
      var d :| d in next && next[d] == x;
      if d != c { assert responses[d] == x; }
    }
    forall x | x in responses.Values ensures x in next.Values {
      var d :| d in responses && responses[d] == x;
      assert next[d] == x;
    }
    assert next[c] == f;
  }

  /** Recording one more candidate puts it in its feedback's class and in no other. */
  lemma ClassAdd(responses: map<Code, Feedback>, c: Code, f: Feedback, g: Feedback)
    requires c !in responses
    ensures |Class(responses[c := f], g)| == |Class(responses, g)| + (if g == f then 1 else 0)
    ensures g !in responses.Values ==> |Class(responses, g)| == 0
  {
    if g == f {
      assert Class(responses[c := f], g) == Class(responses, g) + {c};
    } else {
      assert Class(responses[c := f], g) == Class(responses, g);
    }
    if g !in responses.Values {
      assert Class(responses, g) == {};
    }
  }

  /** Ruby's tally[key] += 1 on a hash whose default is 0. */
  function Increment(tally: map<Feedback, nat>, f: Feedback): map<Feedback, nat>
  {
    tally[f := (if f in tally then tally[f] else 0) + 1]
  }

  /** Recording one more candidate's feedback adds one to that feedback's count and leaves the others. */
  lemma TallyAdd(responses: map<Code, Feedback>, c: Code, f: Feedback)
    requires c !in responses
    ensures Tally(responses[c := f]) == Increment(Tally(responses), f)
  {
    var next := responses[c := f];
    var before := Tally(responses);
    ValuesAdd(responses, c, f);
    var expected := before[f := (if f in before then before[f] else 0) + 1];
    forall g | g in next.Values
      ensures Tally(next)[g] == expected[g]
    {
      ClassAdd(responses, c, f, g);
    }
  }

  /** Ruby's tally.transform_values { |v| size - v }.values: how many each feedback would rule out. */
  function EliminationCounts(tally: map<Feedback, nat>, size: nat): set<int>
  {
    set f | f in tally :: size - tally[f]
  }

  /** Ruby's values.min || 0: the least value, or 0 when there is none. */
  function LeastOrZero(s: set<int>): int
  {
    if s == {} then 0 else MinOf(s)
  }

  /**
   * The minimax score read off a tally: the least of the candidate count
   * minus each feedback's count, or 0 when nothing was tallied.
   */
  lemma MinimaxFromTally(responses: map<Code, Feedback>, size: nat)
    requires size == |responses|
    ensures Minimax(responses) == LeastOrZero(EliminationCounts(Tally(responses), size))
  {
    var counts := EliminationCounts(Tally(responses), size);
    assert counts == Eliminations(responses) by {
      forall x | x in Eliminations(responses) ensures x in counts {
        var f :| f in responses.Values && x == |responses| - |Class(responses, f)|;
        assert f in Tally(responses);
      }
      forall x | x in counts ensures x in Eliminations(responses) {
        var f :| f in Tally(responses) && x == size - Tally(responses)[f];
        assert f in responses.Values;
      }
    }
    if |responses| > 0 {
      EliminationsNonEmpty(responses);
    } else {
      assert responses.Values == {};
    }
  }

  /** The minimax score of a guess, read off the tally of a complete record of the candidates' feedback. */
  lemma MinimaxScoreFromRecord(seen: map<Code, Feedback>, candidates: set<Code>, g: Code)
    requires seen.Keys == candidates && RecordsResponses(seen, g)
    ensures LeastOrZero(EliminationCounts(Tally(seen), |candidates|)) == MinimaxScore(candidates, g)
  {
    ResponsesExtensional(seen, candidates, g);
    MinimaxFromTally(seen, |candidates|);
  }

  /** Every candidate recorded so far is mapped to the feedback it gives guess g. */
  ghost predicate RecordsResponses(seen: map<Code, Feedback>, g: Code)
  {
    forall c :: c in seen ==> seen[c] == Score(c.values, g.values)
  }

  /** One more candidate recorded with its feedback, and counted in the tally. */
  lemma TallyStep(seen: map<Code, Feedback>, g: Code, c: Code, f: Feedback)
    requires RecordsResponses(seen, g) && c !in seen && f == Score(c.values, g.values)
    ensures RecordsResponses(seen[c := f], g)
    ensures Tally(seen[c := f]) == Increment(Tally(seen), f)
  {
    TallyAdd(seen, c, f);
  }

  /** A map that gives every candidate its feedback is the response map. */
  lemma ResponsesExtensional(seen: map<Code, Feedback>, candidates: set<Code>, g: Code)
    requires seen.Keys == candidates && RecordsResponses(seen, g)
    ensures seen == Responses(candidates, g) && |seen| == |candidates|
  {
  }

  /** A map that gives every unused code its minimax score is the score map. */
  lemma ScoresExtensional(scores: map<Code, int>, candidates: set<Code>, unused: set<Code>)
    requires scores.Keys == unused
    requires forall g :: g in scores ==> scores[g] == MinimaxScore(candidates, g)
    ensures scores == ScoresOf(candidates, unused)
  {
  }

  /** The best codes are those whose score is the highest score. */
  lemma BestOfByMax(scores: map<Code, int>)
    requires |scores| > 0
    ensures scores.Values != {}
    ensures BestOf(scores) == set g | g in scores && scores[g] == MaxOf(scores.Values)
  {
    var c :| c in scores;
    assert scores[c] in scores.Values;
    var highest := MaxOf(scores.Values);
    forall h | h in scores ensures scores[h] <= highest {
      assert scores[h] in scores.Values;
    }
    forall g | g in scores
      ensures (scores[g] == highest) == (forall h :: h in scores ==> scores[h] <= scores[g])
    {
      assert scores[g] in scores.Values;
      if forall h :: h in scores ==> scores[h] <= scores[g] {
        var top :| top in scores && scores[top] == highest;
      }
    }
  }

  // ---------------------------------------------------------------------
  // The strategy
  // ---------------------------------------------------------------------

  class KnuthGuessingStrategy {
    const codeLength: nat
    const lo: int
    const hi: int
    const allPossibleCodes: set<Code>
    var possibleSecretCodes: set<Code>

    /** The universe is every valid code, and the candidates are drawn from it. */
    ghost predicate Valid()
      reads this
    {
      && codeLength > 0
      && (forall c :: c in allPossibleCodes <==> ValidCode(c.values, codeLength, lo, hi))
      && possibleSecretCodes <= allPossibleCodes
    }

    constructor (codeLength: nat, lo: int, hi: int)
      requires codeLength > 0
      ensures this.codeLength == codeLength && this.lo == lo && this.hi == hi
      ensures forall c :: c in allPossibleCodes <==> ValidCode(c.values, codeLength, lo, hi)
      ensures |allPossibleCodes| == Pow(RangeSize(lo, hi), codeLength)
      ensures possibleSecretCodes == allPossibleCodes
      ensures Valid()
    {
      this.codeLength := codeLength;
      this.lo := lo;
      this.hi := hi;
      var all := AllPossibleCodes(codeLength, lo, hi);
      allPossibleCodes := all.value;
      possibleSecretCodes := all.value;
    }

    /**
     * The next guess for the board. Before any turn it is the opening, which
     * fails only when the range is empty. Afterwards the candidates are pruned
     * by the last turn, and the guess is chosen among the codes not yet played;
     * there is none once every code has been played.
     */
    method NextGuess(board: Board) returns (r: Result<Option<Code>, CodeError>)
      requires Valid()
      modifies this
      ensures Valid()
      ensures board.turns == [] ==>
        && possibleSecretCodes == old(possibleSecretCodes)
        && (r.Success? <==> lo <= hi)
        && (r.Success? ==> r.value == Some(Code(FirstGuessValues(codeLength, lo, hi))))
        && (r.Failure? ==> r.error == ValueOutOfRange)
      ensures board.turns != [] ==>
        possibleSecretCodes == Prune(old(possibleSecretCodes), board.turns[|board.turns| - 1])
      ensures board.turns != [] ==>
        r == Success(ChooseGuess(possibleSecretCodes, allPossibleCodes - GuessesOf(board.turns)))
      ensures board.turns != [] ==>
        old(possibleSecretCodes) == Consistent(allPossibleCodes, board.turns[..|board.turns| - 1]) ==>
        possibleSecretCodes == Consistent(allPossibleCodes, board.turns)
      ensures board.turns != [] && Recorded(board.secretCode, board.turns) && board.secretCode in old(possibleSecretCodes) ==>
        board.secretCode in possibleSecretCodes
    {
      if |board.turns| == 0 {
        r := OpeningGuess();
        return;
      }
      ghost var candidates := possibleSecretCodes;
      var lastTurn := board.turns[|board.turns| - 1];
      PrunePossibleCodes(lastTurn);
      assert board.turns[|board.turns| - 1] == lastTurn;
      PruneStep(allPossibleCodes, candidates, board.turns, board.secretCode);
      var unusedCodes := allPossibleCodes - GuessesOf(board.turns);
      var guess := ChooseNextGuess(unusedCodes);
      r := Success(guess);
    }

    /** The opening, which Code.new refuses only when the range is empty. */
    method OpeningGuess() returns (r: Result<Option<Code>, CodeError>)
      requires codeLength > 0
      ensures r.Success? <==> lo <= hi
      ensures r.Success? ==> r.value == Some(Code(FirstGuessValues(codeLength, lo, hi)))
      ensures r.Failure? ==> r.error == ValueOutOfRange
    {
      var first := FirstGuess(codeLength, lo, hi);
      if first.Failure? {
        return Failure(first.error);
      }
      return Success(Some(first.value));
    }

    /** Keep only the candidates that, as the secret, would have earned the last turn's feedback. */
    method PrunePossibleCodes(lastTurn: Turn)
      requires Valid()
      modifies this
      ensures possibleSecretCodes == Prune(old(possibleSecretCodes), lastTurn)
      ensures possibleSecretCodes <= old(possibleSecretCodes)
      ensures Valid()
    {
      var candidates := possibleSecretCodes;
      var rest := candidates;
      var kept: set<Code> := {};
      while rest != {}
        invariant rest <= candidates
        invariant forall c :: c in kept <==>
          c in candidates && c !in rest && Score(c.values, lastTurn.guess.values) == lastTurn.feedback
        decreases |rest|
      {
        var code :| code in rest;
        var feedback := ComputeFeedback(code.values, lastTurn.guess.values);
        if feedback == lastTurn.feedback {
          kept := kept + {code};
        }
        rest := rest - {code};
      }
      possibleSecretCodes := kept;
    }

    /** How many candidates the guess is sure to rule out, by tallying each candidate's feedback. */
    method MinimaxScoreFor(guess: Code) returns (score: int)
      ensures score == MinimaxScore(possibleSecretCodes, guess)
    {
      var candidates := possibleSecretCodes;
      var tally: map<Feedback, nat> := map[];
      ghost var seen: map<Code, Feedback> := map[];
      var rest := candidates;
      while rest != {}
        invariant rest <= candidates && seen.Keys == candidates - rest
        invariant RecordsResponses(seen, guess) && tally == Tally(seen)
        decreases |rest|
      {
        var secretCode :| secretCode in rest;
        var feedback := ComputeFeedback(secretCode.values, guess.values);
        TallyStep(seen, guess, secretCode, feedback);
        tally := Increment(tally, feedback);
        seen := seen[secretCode := feedback];
        rest := rest - {secretCode};
      }
      var eliminationCounts := EliminationCounts(tally, |candidates|);
      MinimaxScoreFromRecord(seen, candidates, guess);
      score := LeastOrZero(eliminationCounts);
    }

    /** The minimax score of every unused code. */
    method MinimaxScores(unusedCodes: set<Code>) returns (scores: map<Code, int>)
      ensures scores == ScoresOf(possibleSecretCodes, unusedCodes)
    {
      scores := map[];
      var rest := unusedCodes;
      while rest != {}
        invariant rest <= unusedCodes
        invariant scores.Keys == unusedCodes - rest
        invariant forall g :: g in scores ==> scores[g] == MinimaxScore(possibleSecretCodes, g)
        decreases |rest|
      {
        var code :| code in rest;
        var score := MinimaxScoreFor(code);
        scores := scores[code := score];
        rest := rest - {code};
      }
      ScoresExtensional(scores, possibleSecretCodes, unusedCodes);
    }

    /** The unused codes tied for the highest minimax score; none when no code is unused. */
    method SelectBestGuesses(unusedCodes: set<Code>) returns (best: set<Code>)
      ensures best == BestGuesses(possibleSecretCodes, unusedCodes)
    {
      var minimaxScores := MinimaxScores(unusedCodes);
      if minimaxScores == map[] {
        return {};
      }
      BestOfByMax(minimaxScores);
      var highestScore := MaxOf(minimaxScores.Values);
      best := set g | g in minimaxScores && minimaxScores[g] == highestScore;
    }

    /** The best guess still a candidate, else any best guess, least first. */
    method ChooseNextGuess(unusedCodes: set<Code>) returns (r: Option<Code>)
      ensures r == ChooseGuess(possibleSecretCodes, unusedCodes)
    {
      var bestGuesses := SelectBestGuesses(unusedCodes);
      r := TieBreak(bestGuesses, possibleSecretCodes);
    }
  }

  // ---------------------------------------------------------------------
  // Pruning as written: feedback compared by object identity
  // ---------------------------------------------------------------------

  /**
   * Pruning as the source writes it. Feedback defines no equality of its
   * own, so comparing a freshly scored feedback object with the recorded one
   * compares references, and a fresh object is never the recorded one:
   * every candidate is dropped, whatever the counts.
   */
  method PruneAsWritten(candidates: set<Code>, guess: Code, recorded: FeedbackObject) returns (kept: set<Code>)
    ensures kept == {}
  {
    kept := {};
    var rest := candidates;
    while rest != {}
      invariant kept == {}
      decreases |rest|
    {
      var code :| code in rest;
      var feedback := new FeedbackObject(code.values, guess.values);
      kept := if feedback == recorded then kept + {code} else kept;
      rest := rest - {code};
    }
  }

  /**
   * With no candidate left every minimax score is 0, every unused code ties,
   * none is a candidate, and the choice falls to the least unused code.
   */
  lemma NoCandidatesChoosesLeast(unused: set<Code>)
    requires unused != {}
    ensures ChooseGuess({}, unused) == Some(LeastCode(unused))
  {
    var scores := ScoresOf({}, unused);
    forall g | g in unused ensures scores[g] == 0 {
      assert Responses({}, g) == map[];
    }
    assert BestOf(scores) == unused;
  }

  lemma ScoreOpeningCommon()
    ensures |multiset([1, 2, 3]) * multiset([0, 1, 1])| == 1
  {
    assert multiset([1, 2, 3]) * multiset([0, 1, 1]) == multiset{1};
  }

  /** The opening 0011 against the secret 0123 of the source's tests earns one exact and one partial match. */
  lemma ScoreOpening()
    ensures Score([0, 1, 2, 3], [0, 0, 1, 1]) == Feedback(1, 1)
  {
    ScoreFromParts([0, 1, 2, 3], [0, 0, 1, 1], [1, 2, 3], [0, 1, 1]);
    ScoreOpeningCommon();
  }

  /**
   * The game of the source's tests, length 4 over 0..5 with secret 0123:
   * pruning as written keeps no candidate after the opening 0011, so the
   * second guess is 0000, the least code not yet played.
   */
  lemma SecondGuessAsWritten(universe: set<Code>)
    requires forall c :: c in universe <==> ValidCode(c.values, 4, 0, 5)
    ensures ChooseGuess({}, universe - {Code([0, 0, 1, 1])}) == Some(Code([0, 0, 0, 0]))
  {
    var unused := universe - {Code([0, 0, 1, 1])};
    var zero := Code(Repeat(0, 4));
    assert zero.values == [0, 0, 0, 0];
    assert ValidCode(zero.values, 4, 0, 5);
    assert zero in unused;
    NoCandidatesChoosesLeast(unused);
    var m := LeastCode(unused);
    assert ValidCode(m.values, 4, 0, 5);
    AllLowIsLeast(m.values, 0);
    CompareFlip(m.values, zero.values);
  }

  // ---------------------------------------------------------------------
  // The tie-break as written: `Set#&` compares Code objects by identity
  // ---------------------------------------------------------------------

  /**
   * A Code object as Ruby's sets see it. Code overrides `hash` but not
   * `eql?`, so two objects with the same values are different set members.
   */
  class CodeObject {
    const code: Code

    constructor (code: Code)
      ensures this.code == code
    {
      this.code := code;
    }
  }

  /** The codes a set of objects stands for. */
  function CodesOf(objects: set<CodeObject>): (r: set<Code>)
    ensures forall o :: o in objects ==> o.code in r
    ensures r == {} <==> objects == {}
  {
    set o | o in objects :: o.code
  }

  /** No two objects of the set carry the same code, as in all_possible_codes. */
  predicate DistinctCodes(objects: set<CodeObject>)
  {
    forall o, p :: o in objects && p in objects && o.code == p.code ==> o == p
  }

  /**
   * choose_next_guess with the intersection taken over objects: the least
   * best guess that is the very same object as a candidate, otherwise the
   * least best guess, and nil when there is no best guess.
   */
  function TieBreakByIdentity(best: set<CodeObject>, candidates: set<CodeObject>): (r: Option<Code>)
    ensures r.None? <==> best == {}
    ensures r.Some? ==> r.value in CodesOf(best)
    ensures r.Some? && best * candidates != {} ==>
      r.value in CodesOf(candidates) &&
      forall x :: x in CodesOf(best * candidates) ==> Compare(r.value.values, x.values) <= 0
    ensures r.Some? && best * candidates == {} ==>
      forall x :: x in CodesOf(best) ==> Compare(r.value.values, x.values) <= 0
  {
    var preferred := best * candidates;
    if preferred != {} then Some(LeastCode(CodesOf(preferred)))
    else if best != {} then Some(LeastCode(CodesOf(best)))
    else None
  }

  /**
   * The identity tie-break is the value tie-break with the candidates cut
   * down to those that share an object with a best guess.
   */
  lemma TieBreakByIdentityAsValues(best: set<CodeObject>, candidates: set<CodeObject>)
    ensures TieBreakByIdentity(best, candidates) == TieBreak(CodesOf(best), CodesOf(best * candidates))
  {
    assert CodesOf(best) * CodesOf(best * candidates) == CodesOf(best * candidates);
  }

  /**
   * When every object is drawn from one collection of distinct codes, as the
   * strategy's sets are drawn from all_possible_codes, identity and value
   * comparison choose the same guess.
   */
  lemma SharedObjectsAgree(best: set<CodeObject>, candidates: set<CodeObject>)
    requires DistinctCodes(best + candidates)
    ensures TieBreakByIdentity(best, candidates) == TieBreak(CodesOf(best), CodesOf(candidates))
  {
    forall c | c in CodesOf(best) * CodesOf(candidates) ensures c in CodesOf(best * candidates) {
      var o :| o in best && o.code == c;
      var p :| p in candidates && p.code == c;
      assert o == p;
    }
    assert CodesOf(best) * CodesOf(best * candidates) == CodesOf(best) * CodesOf(candidates);
    TieBreakByIdentityAsValues(best, candidates);
  }

  /**
   * The first tie-break test, with each set built from its own Code objects:
   * 3333 among the best guesses and 3333 among the candidates are different
   * objects, so the intersection is empty and the choice is 2222, not 3333.
   */
  method TieBreakAsWritten() returns (r: Option<Code>)
    ensures r == Some(Code(Repeat(2, 4)))
  {
    var c0, c1, c2, c3 := Code(Repeat(0, 4)), Code(Repeat(1, 4)), Code(Repeat(2, 4)), Code(Repeat(3, 4));
    var best3 := new CodeObject(c3);
    var best2 := new CodeObject(c2);
    var possible0 := new CodeObject(c0);
    var possible1 := new CodeObject(c1);
    var possible3 := new CodeObject(c3);
    assert {best3, best2} * {possible0, possible1, possible3} == {};
    assert CodesOf({best3, best2}) == {c3, c2};
    r := TieBreakByIdentity({best3, best2}, {possible0, possible1, possible3});
    CompareConstant(2, 3);
    CompareFlip(c2.values, c3.values);
  }
}
