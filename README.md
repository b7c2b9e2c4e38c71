# Mastermind code breaking, modelled in Dafny

This project models the code-breaking core of a Ruby Mastermind game:

- **Codes** (`code.dfy`, module `Codes`). A code is a fixed-length sequence of integers over an inclusive range `lo..hi`. The model covers:
  - validated construction;
  - the lexicographic order that `Code#<=>` delegates to `Array#<=>`;
  - the enumeration of every code of a length (`all_possible_codes`).
- **Feedback** (`feedback.dfy`, module `Scoring`). A guess earns feedback against a secret as an (exact, partial) pair.
  - The reference score `Score` is defined as follows. Exact matches are the positions where the two codes agree. Partial matches are the size of the multiset intersection of the values left over on each side.
  - The source computes feedback with a two-pass algorithm over copies of the value arrays. It blanks each value it consumes (nil becomes `None`). The model keeps those arrays and proves that each pass, and the whole constructor, computes `Score`.
- **Board** (`board.dfy`, module `Boards`). A class holds the secret, the turn limit and the append-only list of turns (`Turn` is folded in as a datatype).
  - `AddGuess` refuses a guess once the game is decided.
  - The winner is decided by the last turn.
  - A ghost invariant, `Valid`, states two things: every recorded feedback is the score of its guess, and every turn was added while the game was undecided.
- **Knuth's strategy** (`knuth.dfy`, module `Knuth`). A class holds the fixed universe of codes and the candidate set that pruning shrinks.
  - Each method is proved against a specification function:
    - `Prune` and `Consistent` for pruning;
    - `Responses`, `Tally` and `Minimax` for the minimax score;
    - `BestOf` for the best guesses;
    - `TieBreak` and `ChooseGuess` for the choice;
    - `FirstGuessValues` for the opening.
  - Lemmas prove what the strategy promises about those functions.

Outcomes the source signals by raising an exception appear as `Result` or `Outcome` values (`wrappers.dfy`):
- `ArgumentError` from `Code.new`;
- `GameOverError` from `add_guess`.

A `nil` guess becomes `Option.None`.

## Model

| member | source | states |
|---|---|---|
| Codes.NewCode | lib/odin/mastermind/code.rb:48-74 | Construction succeeds exactly when the length is positive, the value count equals it and every value lies in lo..hi. It then stores those values. Otherwise it fails with the first violated check, in the source's order. |
| Codes.NewCodeExamples | spec/odin/master_mind/code_spec.rb:31-93 | The test inputs: lengths -1 and 0 are refused for length; one value for a length of 4 is refused for count; 6 over 0..5 is refused for range. |
| Codes.Compare | lib/odin/mastermind/code.rb:36-40 | The three-way comparison returns -1, 0 or 1, and returns 0 exactly when the value sequences are equal. |
| Codes.CompareFlip | lib/odin/mastermind/code.rb:36-40 | Swapping the operands negates the comparison. |
| Codes.CompareTransitive | lib/odin/mastermind/code.rb:34-40 | The order is transitive, as `Comparable` requires. |
| Codes.AllLowIsLeast | spec/odin/master_mind/code_spec.rb:105-108 | The all-`lo` code compares below every other code of its length over the range, and equal only to itself. |
| Codes.AllHighIsGreatest | spec/odin/master_mind/code_spec.rb:110-113 | The all-`hi` code compares above every other code of its length over the range. |
| Codes.LeastCode | lib/odin/mastermind/knuth_guessing_strategy.rb:72 | `Set#min` picks a member of a non-empty set that compares at most 0 with every member. `LeastUnique` shows that this member is unique. |
| Codes.WordsMembers | lib/odin/mastermind/code.rb:28-32 | A code is among the repeated permutations of length n exactly when it has length n and all its values lie in range. |
| Codes.WordsCount | lib/odin/mastermind/code.rb:28-32 | There are (hi-lo+1)^n repeated permutations of length n. |
| Codes.AllPossibleCodes | lib/odin/mastermind/code.rb:28-32 | Length 0 fails, because the single empty permutation is refused by the constructor. A negative length yields the empty set. A positive length yields exactly the valid codes, and (hi-lo+1)^n of them. |
| Scoring.CountAndRemoveExactMatches | lib/odin/mastermind/feedback.rb:45-52 | The first pass counts the agreeing positions. It leaves both copies with exactly those positions blanked. |
| Scoring.CountAndRemovePartialMatches | lib/odin/mastermind/feedback.rb:61-71 | The second pass counts the multiset intersection of the remaining values. The remaining guess values become the multiset difference. Only blanking happens, and each value consumes the earliest equal remaining guess entry. |
| Scoring.ComputeFeedback | lib/odin/mastermind/feedback.rb:10-22 | Running both passes on copies of the two value sequences yields exactly the reference score. |
| Scoring.FeedbackObject.constructor | lib/odin/mastermind/feedback.rb:10-22 | A Feedback object's counts are the reference score of its secret and guess. |
| Scoring.ScoreBound | lib/odin/mastermind/feedback.rb:45-71 | Exact plus partial never exceeds the length of either code. |
| Scoring.ExactSymmetric | lib/odin/mastermind/feedback.rb:45-52 | The exact count does not depend on which code is the secret. |
| Scoring.ScoreSymmetric | lib/odin/mastermind/feedback.rb:10-22 | Swapping secret and guess leaves the feedback unchanged. |
| Scoring.ScoreSelf | spec/odin/master_mind/feedback_spec.rb:22-27 | A code scored against itself is (length, 0). |
| Scoring.AllExactIffEqual | lib/odin/mastermind/board.rb:40 | For codes of equal length, the exact count equals the length exactly when the guess is the secret. |
| Scoring.ScoreNoCommonValue | spec/odin/master_mind/feedback_spec.rb:15-20 | 0123 against 4545 scores (0, 0). |
| Scoring.ScoreAllMisplaced | spec/odin/master_mind/feedback_spec.rb:29-34 | 0123 against 3210 scores (0, 4). |
| Scoring.ScoreTwoSwapped | spec/odin/master_mind/feedback_spec.rb:36-43 | 0123 against 0132 scores (2, 2). |
| Scoring.ScoreRepeatedGuessValue | spec/odin/master_mind/feedback_spec.rb:45-52 | 0123 against 0111 scores (2, 0). |
| Scoring.ScoreSecretDuplicates | spec/odin/master_mind/feedback_spec.rb:54-61 | 0111 against 0123 scores (2, 0). |
| Scoring.ScoreRepeatedValues | spec/odin/master_mind/feedback_spec.rb:63-70 | 1123 against 1411 scores (1, 1). |
| Scoring.ScoreRepeatedSecretValue | spec/odin/master_mind/feedback_spec.rb:72-79 | 0111 against 0000 scores (1, 0). |
| Scoring.ScoreRepeatedBoth | spec/odin/master_mind/feedback_spec.rb:81-88 | 0111 against 1123 scores (1, 1). |
| Scoring.ScoreOneAndOne | spec/odin/master_mind/board_spec.rb:31-36 | 1234 against 1122 scores (1, 1). |
| Scoring.ScoreFrontSwapped | spec/odin/master_mind/feedback_spec.rb:99-104 | 0123 against 1023 scores (2, 2). |
| Scoring.ScoreThreeExact | spec/odin/master_mind/feedback_spec.rb:106-111 | 0123 against 0125 scores (3, 0). |
| Scoring.ScoreTwoExact | spec/odin/master_mind/feedback_spec.rb:113-118 | 0123 against 0155 scores (2, 0). |
| Scoring.FeedbackEqualityExamples | spec/odin/master_mind/feedback_spec.rb:99-118 | Feedback with the same counts is equal, and a difference in either count makes it unequal. |
| Boards.Board.constructor | lib/odin/mastermind/board.rb:9-13 | A new board stores its secret and limit, has no turns, and is valid. |
| Boards.Board.AddGuess | lib/odin/mastermind/board.rb:25-30 | On a decided game the guess fails with GameOverError and the turns are unchanged. Otherwise exactly one turn is appended: the guess with its score against the secret. Validity is preserved. |
| Boards.AppendKeepsInvariant | lib/odin/mastermind/board.rb:25-30 | Appending a scored turn to an undecided, valid history keeps it valid. |
| Boards.PastLimitIsOutOfOrder | lib/odin/mastermind/board.rb:26 | A history longer than a limit of at least one turn cannot have been played with the game-over guard. |
| Boards.TurnsWithinLimit | lib/odin/mastermind/board.rb:26-41 | With a limit of at least one turn, a valid history never holds more turns than the limit. |
| Boards.WinnerCases | lib/odin/mastermind/board.rb:38-44 | There is no winner before the first turn. The code breaker has won exactly when the last turn's exact count equals the secret's length. The code maker has won exactly when it does not and the turn count equals the limit. Otherwise there is no winner. |
| Boards.GameOverCases | lib/odin/mastermind/board.rb:47-49 | The game is over exactly when a winner is decided: some turn was played, and the last one either guessed every position or reached the limit. |
| Boards.CodeBreakerIffSecretGuessed | lib/odin/mastermind/board.rb:38-44 | On a recorded history, the code breaker has won exactly when the last guess is the secret. This takes priority over the turn count. |
| Boards.CodeMakerOnlyAtLimit | lib/odin/mastermind/board.rb:41-43 | The code maker wins only on the turn that reaches the limit, and only when that turn's guess is not the secret. |
| Boards.SingleValueGuess | spec/odin/master_mind/board_spec.rb:162-176 | Against 1234, each of 1111, 2222 and 3333 has exactly one exact match. |
| Boards.BreakerWinsScenario | spec/odin/master_mind/board_spec.rb:52-67 | Secret 1234 with a limit of 3: after 1122 and 1234 the code breaker has won, and a further guess is refused with GameOverError. |
| Boards.MakerWinsScenario | spec/odin/master_mind/board_spec.rb:162-176 | Secret 1234 with a limit of 3: after 1111, 2222 and 3333 the code maker has won. |
| Knuth.KnuthGuessingStrategy.constructor | lib/odin/mastermind/knuth_guessing_strategy.rb:11-16 | The universe is exactly the valid codes, (hi-lo+1)^n of them, and the candidates start equal to the universe. |
| Knuth.KnuthGuessingStrategy.NextGuess | lib/odin/mastermind/knuth_guessing_strategy.rb:32-39 | Before any turn it returns the opening, or fails on an empty range, and leaves the candidates as they were. Afterwards it prunes by the last turn and returns the choice among the codes not yet played. Candidates consistent with the earlier turns become those consistent with all turns. When every turn was scored against the board's secret, a secret that was a candidate stays one. |
| Knuth.KnuthGuessingStrategy.OpeningGuess | lib/odin/mastermind/knuth_guessing_strategy.rb:34 | With no turn played, the result is the opening code. It fails with ValueOutOfRange exactly when the range is empty. |
| Knuth.PruneStep | lib/odin/mastermind/knuth_guessing_strategy.rb:36 | Pruning by the last turn takes the codes consistent with the earlier turns to those consistent with all turns. A secret the turns were scored against stays a candidate. |
| Knuth.KnuthGuessingStrategy.PrunePossibleCodes | lib/odin/mastermind/knuth_guessing_strategy.rb:108-112 | The new candidates are exactly the old ones whose score against the last guess equals the recorded feedback, compared as (exact, partial) pairs. The set only shrinks. |
| Knuth.KnuthGuessingStrategy.MinimaxScoreFor | lib/odin/mastermind/knuth_guessing_strategy.rb:87-99 | The tally loop yields the guess's minimax score over the current candidates. |
| Knuth.KnuthGuessingStrategy.MinimaxScores | lib/odin/mastermind/knuth_guessing_strategy.rb:79-81 | Every unused code is mapped to its minimax score, and nothing else is mapped. |
| Knuth.KnuthGuessingStrategy.SelectBestGuesses | lib/odin/mastermind/knuth_guessing_strategy.rb:49-58 | The result is the set of unused codes that no other unused code outscores. It is empty when no code is unused. |
| Knuth.KnuthGuessingStrategy.ChooseNextGuess | lib/odin/mastermind/knuth_guessing_strategy.rb:64-73 | The result is the tie-break of the best guesses against the current candidates. |
| Knuth.TieBreak | lib/odin/mastermind/knuth_guessing_strategy.rb:64-73 | The result is None exactly when there is no best guess. Otherwise it is a best guess: a candidate whenever some best guess is a candidate, and the least of those candidates; otherwise the least of all best guesses. |
| Knuth.TieBreakByIdentity | lib/odin/mastermind/knuth_guessing_strategy.rb:64-73 | With sets of code objects intersected by identity, as `Set#&` does for `Code`: None exactly when there is no best guess. Otherwise the least code of the best guesses shared as objects with the candidates, or the least best guess when none is shared. |
| Knuth.TieBreakByIdentityAsValues | lib/odin/mastermind/knuth_guessing_strategy.rb:68 | The identity tie-break equals the value tie-break applied to the codes of the object intersection. |
| Knuth.SharedObjectsAgree | lib/odin/mastermind/knuth_guessing_strategy.rb:68 | When no two distinct objects carry the same code, as when both sets are drawn from `all_possible_codes`, the identity tie-break equals the value tie-break. |
| Knuth.TieBreakAsWritten | spec/odin/master_mind/knuth_guessing_strategy_spec.rb:65-94 | With best guesses 3333 and 2222 and candidates 0000, 1111 and 3333 built as separate objects, the intersection is empty and 2222 is chosen. |
| Knuth.TieBreakExamples | spec/odin/master_mind/knuth_guessing_strategy_spec.rb:65-125 | Best guesses 3333 and 2222: 3333 is chosen when it is a candidate, and 2222 when neither is. |
| Knuth.ChooseGuessSpec | lib/odin/mastermind/knuth_guessing_strategy.rb:49-73 | The choice is None exactly when no code is unused. Otherwise it is an unused code with the highest minimax score, and it is a candidate whenever some best guess is. |
| Knuth.GuessesNeverRepeat | lib/odin/mastermind/knuth_guessing_strategy.rb:37-38 | A chosen guess belongs to the universe and to no earlier turn. There is none exactly when every code of the universe has been played. |
| Knuth.PruneConsistent | lib/odin/mastermind/knuth_guessing_strategy.rb:108-112 | Pruning the codes consistent with a history by one more turn gives the codes consistent with the longer history. |
| Knuth.SecretConsistent | lib/odin/mastermind/board.rb:28 | The secret is consistent with every turn of a history scored against it. |
| Knuth.SecretSurvivesPruning | lib/odin/mastermind/knuth_guessing_strategy.rb:110 | A secret still among the candidates survives pruning by a turn scored against it. |
| Knuth.MinimaxIsWorstCase | lib/odin/mastermind/knuth_guessing_strategy.rb:87-99 | With candidates left, the score is between 0 and one less than their number. No candidate's feedback class rules out fewer, and some class rules out exactly that many. |
| Knuth.MinimaxZeroIffNoSplit | lib/odin/mastermind/knuth_guessing_strategy.rb:87-99 | The score is 0 exactly when all candidates give the same feedback, or there are none. |
| Knuth.MinimaxScoreBounds | lib/odin/mastermind/knuth_guessing_strategy.rb:87-99 | A guess scores 0 with no candidates, and otherwise between 0 and one less than the number of candidates. |
| Knuth.TallyAdd | lib/odin/mastermind/knuth_guessing_strategy.rb:90-94 | Recording one more candidate adds one to its feedback's count (from a default of 0) and leaves the other counts unchanged. |
| Knuth.MinimaxFromTally | lib/odin/mastermind/knuth_guessing_strategy.rb:96-98 | The least elimination count read off the tally, or 0 when the tally is empty, is the minimax score. |
| Knuth.BestOfNonEmpty | lib/odin/mastermind/knuth_guessing_strategy.rb:49-58 | The best guesses are scored codes, and there are none exactly when nothing was scored. |
| Knuth.BestOfByMax | lib/odin/mastermind/knuth_guessing_strategy.rb:53-57 | The codes no other code outscores are exactly those whose score equals the highest score. |
| Knuth.FirstGuessValues | lib/odin/mastermind/knuth_guessing_strategy.rb:124-137 | The opening has exactly one value per position. |
| Knuth.FirstGuessBalanced | lib/odin/mastermind/knuth_guessing_strategy.rb:130-136 | Over at least two values, the opening is sorted and uses only lo and lo+1. lo appears at least as often as lo+1 and at most once more. |
| Knuth.FirstGuessSingleValue | lib/odin/mastermind/knuth_guessing_strategy.rb:127-128 | Over fewer than two values, every position holds lo. |
| Knuth.FirstGuess | lib/odin/mastermind/knuth_guessing_strategy.rb:114-116 | The opening is `Code.new` applied to the opening values. It succeeds exactly when the length is positive and the range is not empty, and fails with NonPositiveLength or ValueOutOfRange otherwise. |
| Knuth.FirstGuessExamples | spec/odin/master_mind/knuth_guessing_strategy_spec.rb:26-38 | The opening is 0011 over 0..5 and 1111 over 1..1. |
| Knuth.ScoreOpening | spec/odin/master_mind/knuth_guessing_strategy_spec.rb:43-47 | The opening 0011 against the secret 0123 earns one exact and one partial match. |
| Knuth.PruneAsWritten | lib/odin/mastermind/knuth_guessing_strategy.rb:108-112 | As written, comparing a fresh Feedback object with the recorded one by reference drops every candidate. |
| Knuth.NoCandidatesChoosesLeast | lib/odin/mastermind/knuth_guessing_strategy.rb:64-73 | With no candidate left, every unused code ties at 0 and the least unused code is chosen. |
| Knuth.SecondGuessAsWritten | spec/odin/master_mind/knuth_guessing_strategy_spec.rb:41-57 | Over length 4 and 0..5, once pruning has emptied the candidates after the opening 0011, the second guess is 0000. |

## Left out

- Ruby's dynamic type checks are not modelled, because Dafny's types rule those inputs out:
  - `TypeError` for a non-Integer length, a non-Array `values` or a non-Range range;
  - the "not iterable" check on a float range.
- Ranges are modelled as the inclusive integer range `lo..hi`. Exclusive, endless and beginless ranges are not modelled; the source never builds them.
- A code does not store its length or range. Ruby compares and hashes codes by their values only. Where the board reads `secret_code.code_length`, the model uses the length of the secret's values, which validated construction makes equal.
- Ruby sets use `eql?`, which `Code` does not override, so set membership is by object identity. The model uses value equality. This matters in three places:
  - `unused_codes` can still contain a value-equal copy of the first guess. The opening is a fresh object, not a member of `all_possible_codes`.
  - `GuessesOf` removes every code equal in value to an earlier guess.
  - `best_guesses & possible_secret_codes` in `choose_next_guess` intersects by identity. During a game both sets hold objects from `all_possible_codes`, and then identity and value agree (`Knuth.SharedObjectsAgree`). The identity version itself is `Knuth.TieBreakByIdentity`; the strategy uses the value version `Knuth.TieBreak`.
- Knuth.KnuthGuessingStrategy.constructor: requires a positive length. Length 0 raises in `all_possible_codes`. A negative length raises only on the first `next_guess`, from `Array#*`, which is not part of this model.
- Knuth.KnuthGuessingStrategy.NextGuess: `board.turns.last` and `board.turns.map(&:guess)` are read from the board. The model does not require the strategy's candidates to have been pruned by every earlier turn. Tracking is stated conditionally: if the candidates were consistent with the earlier turns, they are consistent with all turns afterwards.
- The test's concrete second guess 0023, after the opening 0011 earns (1, 1), is not proved. Discharging it would mean evaluating about 1296 × 1296 scores inside the verifier. Only the as-written outcome (`Knuth.SecondGuessAsWritten`) and the survival of the secret (`Knuth.SecretSurvivesPruning`) are proved.
- The rest of the repository is not part of this model:
  - console I/O;
  - the game engine loop;
  - the players;
  - the random guessing strategy;
  - configuration.
- `Turn` is a two-field datatype inside the board model, not a class.

## Findings

| source | as written | input that shows it | evidently intended | confidence | as-written member | corrected member |
|---|---|---|---|---|---|---|
| lib/odin/mastermind/knuth_guessing_strategy.rb:110 | Pruning compares a freshly built `Feedback` with the recorded one using `==`. `Feedback` (lib/odin/mastermind/feedback.rb) defines no `==`, so the comparison is by object identity and is always false. Every candidate is dropped. | Length 4 over 0..5, secret 0123. The opening 0011 earns (1, 1). Pruning then empties the candidates, every score is 0, and the next guess is 0000, the least unused code, instead of a code consistent with the feedback. | Feedback equality is equality of the (exact, partial) pair, as spec/odin/master_mind/feedback_spec.rb:99-118 expects. Pruning then keeps exactly the candidates that would have earned the recorded feedback, including the secret. | not executed | Knuth.PruneAsWritten | Knuth.KnuthGuessingStrategy.PrunePossibleCodes |
| lib/odin/mastermind/knuth_guessing_strategy.rb:68 | `best_guesses & possible_secret_codes` uses `eql?` and `hash`. `Code` overrides `hash` but not `eql?`, so two value-equal codes built separately are different set members. | spec/odin/master_mind/knuth_guessing_strategy_spec.rb:65-94: best guesses 3333 and 2222, candidates 0000, 1111 and 3333, each a separate `Code.new`. The intersection is empty, so the result is 2222, while the test expects 3333. | Codes compare by value in sets, through an `eql?` that agrees with `==`. The intersection is then {3333} and 3333 is chosen. | not executed | Knuth.TieBreakAsWritten | Knuth.TieBreak |
