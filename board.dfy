/**
 * The game board: the secret code, the turn limit, and the history of
 * turns, each a guess with the feedback it earned against the secret.
 * A guess is refused once the game is over, and the winner is decided by
 * the last turn alone.
 */
module Boards {
  import opened Wrappers
  import opened Codes
  import opened Scoring

  /** A guess together with its feedback against the secret code. */
  datatype Turn = Turn(guess: Code, feedback: Feedback)

  /** The two possible winners; no winner yet is None. */
  datatype Winner = CodeBreaker | CodeMaker

  datatype BoardError = GameOverError

  /**
   * The winner after the given turns: nobody before the first turn, the code
   * breaker when the last turn's exact count equals the secret's length, the
   * code maker when exactly maxTurns turns have been played, nobody otherwise.
   */
  function WinnerOf(codeLength: int, maxTurns: int, turns: seq<Turn>): Option<Winner>
  {
    if |turns| == 0 then None
    else if turns[|turns| - 1].feedback.exactMatches == codeLength then Some(CodeBreaker)
    else if |turns| == maxTurns then Some(CodeMaker)
    else None
  }

  /**
   * Each outcome of WinnerOf exactly: the code breaker wins on a last turn
   * with all positions exact, whatever the turn count; otherwise the code
   * maker wins on the turn that reaches the limit; otherwise nobody has won.
   */
  lemma WinnerCases(codeLength: int, maxTurns: int, turns: seq<Turn>)
    ensures WinnerOf(codeLength, maxTurns, turns) == Some(CodeBreaker) <==>
      |turns| > 0 && turns[|turns| - 1].feedback.exactMatches == codeLength
    ensures WinnerOf(codeLength, maxTurns, turns) == Some(CodeMaker) <==>
      |turns| > 0 && turns[|turns| - 1].feedback.exactMatches != codeLength && |turns| == maxTurns
    ensures WinnerOf(codeLength, maxTurns, turns).None? <==>
      |turns| == 0 || (turns[|turns| - 1].feedback.exactMatches != codeLength && |turns| != maxTurns)
  {
  }

  /** Every recorded feedback is the score of its guess against the secret. */
  ghost predicate Recorded(secret: Code, turns: seq<Turn>)
  {
    forall i :: 0 <= i < |turns| ==> turns[i].feedback == Score(secret.values, turns[i].guess.values)
  }

  /** Each turn was added while the game was still undecided. */
  predicate PlayedInOrder(codeLength: int, maxTurns: int, turns: seq<Turn>)
  {
    forall k :: 0 <= k < |turns| ==> WinnerOf(codeLength, maxTurns, turns[..k]).None?
  }

  class Board {
    const secretCode: Code
    const maxTurns: int
    var turns: seq<Turn>

    /** The history was built by AddGuess alone. */
    ghost predicate Valid()
      reads this
    {
      Recorded(secretCode, turns) && PlayedInOrder(|secretCode.values|, maxTurns, turns)
    }

    constructor (secretCode: Code, maxTurns: int)
      ensures this.secretCode == secretCode && this.maxTurns == maxTurns
      ensures turns == [] && Valid()
    {
      this.secretCode := secretCode;
      this.maxTurns := maxTurns;
      turns := [];
    }

    function Winner(): Option<Winner>
      reads this
    {
      WinnerOf(|secretCode.values|, maxTurns, turns)
    }

    /** The game is over once a winner is decided (characterized by `GameOverCases`). */
    predicate GameOver()
      reads this
    {
      Winner().Some?
    }

    /**
     * Record a guess with its feedback, or refuse it with GameOverError when
     * the game is already decided; a refused guess leaves the history as it was.
     */
    method AddGuess(guess: Code) returns (r: Outcome<BoardError>)
      modifies this
      ensures old(GameOver()) ==> r == Fail(GameOverError) && turns == old(turns)
      ensures !old(GameOver()) ==>
        r == Pass && turns == old(turns) + [Turn(guess, Score(secretCode.values, guess.values))]
      ensures old(Valid()) ==> Valid()
    {
      if GameOver() {
        return Fail(GameOverError);
      }
      var feedback := ComputeFeedback(secretCode.values, guess.values);
      ghost var before := turns;
      turns := turns + [Turn(guess, feedback)];
      if Recorded(secretCode, before) && PlayedInOrder(|secretCode.values|, maxTurns, before) {
        AppendKeepsInvariant(secretCode, maxTurns, before, Turn(guess, feedback));
      }
      return Pass;
    }
  }

  /** The game is over exactly once the secret is guessed or the last allowed turn is played. */
  lemma GameOverCases(board: Board)
    ensures board.GameOver() <==>
      |board.turns| > 0 &&
      (board.turns[|board.turns| - 1].feedback.exactMatches == |board.secretCode.values| ||
       |board.turns| == board.maxTurns)
  {
  }

  /** A turn scored against the secret and added while undecided keeps the history valid. */
  lemma AppendKeepsInvariant(secret: Code, maxTurns: int, turns: seq<Turn>, t: Turn)
    requires Recorded(secret, turns) && PlayedInOrder(|secret.values|, maxTurns, turns)
    requires WinnerOf(|secret.values|, maxTurns, turns).None?
    requires t.feedback == Score(secret.values, t.guess.values)
    ensures Recorded(secret, turns + [t]) && PlayedInOrder(|secret.values|, maxTurns, turns + [t])
  {
    var next := turns + [t];
    forall k | 0 <= k < |next| ensures WinnerOf(|secret.values|, maxTurns, next[..k]).None? {
      if k == |turns| {
        assert next[..k] == turns;
      } else {
        assert next[..k] == turns[..k];
      }
    }
  }

  /** Playing past a limit of at least one turn means a turn was added after the game ended. */
  lemma PastLimitIsOutOfOrder(codeLength: int, maxTurns: int, turns: seq<Turn>)
    requires 1 <= maxTurns < |turns|
    ensures !PlayedInOrder(codeLength, maxTurns, turns)
  {
    assert WinnerOf(codeLength, maxTurns, turns[..maxTurns]).Some?;
  }

  /**
   * With a limit of at least one turn, a history played in order never
   * holds more turns than the limit: the turn that reaches it ends the game.
   */
  lemma TurnsWithinLimit(codeLength: int, maxTurns: int, turns: seq<Turn>)
    requires maxTurns >= 1 && PlayedInOrder(codeLength, maxTurns, turns)
    ensures |turns| <= maxTurns
  {
    if |turns| > maxTurns {
      PastLimitIsOutOfOrder(codeLength, maxTurns, turns);
    }
  }

  /**
   * On a recorded history whose last guess has the secret's length, the code
   * breaker has won exactly when that guess is the secret.
   */
  lemma CodeBreakerIffSecretGuessed(secret: Code, maxTurns: int, turns: seq<Turn>)
    requires Recorded(secret, turns) && |turns| > 0
    requires |turns[|turns| - 1].guess.values| == |secret.values|
    ensures WinnerOf(|secret.values|, maxTurns, turns) == Some(CodeBreaker) <==>
      turns[|turns| - 1].guess == secret
  {
    var last := turns[|turns| - 1];
    AllExactIffEqual(secret.values, last.guess.values);
  }

  /**
   * The code maker wins only on the turn that reaches the limit, and only
   * when that turn's guess is not the secret.
   */
  lemma CodeMakerOnlyAtLimit(secret: Code, maxTurns: int, turns: seq<Turn>)
    requires Recorded(secret, turns) && |turns| > 0
    requires WinnerOf(|secret.values|, maxTurns, turns) == Some(CodeMaker)
    ensures |turns| == maxTurns && turns[|turns| - 1].guess != secret
  {
    ScoreSelf(secret.values);
  }

  /**
   * The game played in the source's tests: secret 1234 with a limit of three
   * turns; 1122 scores (1, 1), then 1234 wins and a further guess is refused.
   */
  method BreakerWinsScenario() returns (w: Option<Winner>, refused: Outcome<BoardError>)
    ensures w == Some(CodeBreaker) && refused == Fail(GameOverError)
  {
    var secret := Code([1, 2, 3, 4]);
    var board := new Board(secret, 3);
    ScoreOneAndOne();
    var first := board.AddGuess(Code([1, 1, 2, 2]));
    var second := board.AddGuess(secret);
    ScoreSelf(secret.values);
    w := board.Winner();
    refused := board.AddGuess(secret);
  }

  /** A guess repeating one of the secret's values matches it in exactly one position. */
  lemma SingleValueGuess(v: int)
    requires 1 <= v <= 4
    ensures Score([1, 2, 3, 4], Repeat(v, 4)).exactMatches == 1
  {
    ExactFour([1, 2, 3, 4], Repeat(v, 4));
  }

  /**
   * The other game of the source's tests: 1111, 2222 and 3333 against
   * secret 1234 with a limit of three turns; the code maker wins.
   */
  method MakerWinsScenario() returns (w: Option<Winner>)
    ensures w == Some(CodeMaker)
  {
    var secret := Code([1, 2, 3, 4]);
    var board := new Board(secret, 3);
    for v := 1 to 4
      invariant |board.turns| == v - 1
      invariant forall k :: 0 <= k < |board.turns| ==> board.turns[k].feedback.exactMatches == 1
    {
      SingleValueGuess(v);
      var outcome := board.AddGuess(Code(Repeat(v, 4)));
    }
    w := board.Winner();
  }
}
