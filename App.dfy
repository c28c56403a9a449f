/** The `App` component as an object: its hook state as fields and its
    handlers as methods that update those fields one after another, with
    handleGuess returning early on a rejected input. Each method is tied to
    the matching transition of module Guessing, where the game's properties
    are proved. */
module App {
  import opened NumberText
  import opened Guessing

  class Session {
    var targetNumber: int
    var userGuess: string
    var attempts: nat
    var feedback: Feedback
    var gameWon: bool
    var gameStarted: bool
    var guessHistory: seq<int>

    /** The fields as one value. */
    function State(): GameState
      reads this
    {
      GameState(targetNumber, userGuess, attempts, feedback, gameWon, gameStarted, guessHistory)
    }

    predicate Valid()
      reads this
    {
      Consistent(State())
    }

    /** The feedback line as the page shows it: empty only before the first
        game starts, and once won it carries the attempt count. */
    function FeedbackText(): (m: string)
      reads this
      ensures m == [] <==> feedback == Blank
      ensures Valid() ==> m != []
      ensures feedback.Won? ==> |WinPrefix| <= |m| && ParseInt(m[|WinPrefix|..]) == Some(feedback.count)
    {
      if feedback.Won? then WinMessageShowsCount(feedback.count); Message(feedback)
      else Message(feedback)
    }

    /** Mounting the component: the `useState` initial values, then the
        effect that starts a game because none has been started. */
    constructor (draw: Draw)
      ensures Valid()
      ensures State() == NewGame(draw)
    {
      targetNumber := 0;
      userGuess := "";
      attempts := 0;
      feedback := Blank;
      gameWon := false;
      gameStarted := false;
      guessHistory := [];
      new;
      if !gameStarted {
        StartNewGame(draw);
      }
    }

    /** startNewGame: draws a secret in [1, 100] and resets every other field. */
    method StartNewGame(draw: Draw)
      modifies this
      ensures targetNumber == GenerateRandomNumber(draw) && InRange(targetNumber)
      ensures userGuess == "" && attempts == 0 && feedback == Prompt
      ensures !gameWon && gameStarted && guessHistory == []
      ensures Valid()
    {
      var newNumber := GenerateRandomNumber(draw);
      targetNumber := newNumber;
      userGuess := "";
      attempts := 0;
      feedback := Prompt;
      gameWon := false;
      gameStarted := true;
      guessHistory := [];
    }

    /** handleGuess. It does not look at `gameWon` itself; its callers below
        do. The input is read with `parseInt` and then judged by Record. */
    method HandleGuess()
      modifies this
      ensures State() == Guessed(old(State()))
      ensures old(Valid()) && !old(gameWon) ==> Valid()
    {
      ghost var before := State();
      var guess := ParseInt(userGuess);
      Record(guess);
      if Consistent(before) && !before.gameWon {
        GuessKeepsConsistent(before);
      }
    }

    /** The rest of handleGuess, once the input has been read as `guess`: a
        rejected guess sets only the validation message and returns early;
        an accepted one is counted, appended, judged and cleared. */
    method Record(guess: Option<int>)
      modifies this
      ensures State() == Judged(old(State()), guess)
    {
      if guess.None? || guess.value < 1 || guess.value > 100 {
        feedback := Invalid;
        return;
      }
      var newAttempts := attempts + 1;
      attempts := newAttempts;
      guessHistory := guessHistory + [guess.value];
      if guess.value == targetNumber {
        gameWon := true;
        feedback := Won(newAttempts);
      } else if guess.value < targetNumber {
        feedback := TooLow;
      } else {
        feedback := TooHigh;
      }
      userGuess := "";
    }

    /** handleKeyPress: Enter submits the guess, but only while the game is
        not won; once it is won, a key press changes nothing. */
    method HandleKeyPress(key: string)
      modifies this
      ensures State() == Step(old(State()), KeyPress(key))
      ensures old(gameWon) || key != "Enter" ==> unchanged(this)
      ensures old(Valid()) ==> Valid()
    {
      if key == "Enter" && !gameWon {
        HandleGuess();
      }
    }

    /** The Guess button, which the page renders only while the game is not
        won. */
    method ClickGuess()
      requires !gameWon
      modifies this
      ensures State() == Guessed(old(State()))
      ensures old(Valid()) ==> Valid()
    {
      HandleGuess();
    }

    /** onChange of the guess input, which the page renders only while the
        game is not won. */
    method TypeGuess(text: string)
      requires !gameWon
      modifies this`userGuess
      ensures userGuess == text
      ensures old(Valid()) ==> Valid()
    {
      userGuess := text;
    }
  }
}
