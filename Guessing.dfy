/** The number guessing game as values: the state the `App` component keeps
    in its hooks, the feedback it shows, the two handlers as functions from
    the old state to the new one, and the user events the rendered page
    lets through to them. The class in App.dfy runs the same handlers
    imperatively; the properties of the game are proved here. */
module Guessing {
  import opened NumberText

  /** Bounds of the secret and of an acceptable guess. */
  const Low := 1
  const High := 100

  predicate InRange(v: int) {
    Low <= v <= High
  }

  /** A value `Math.random()` may return. */
  type Draw = r: real | 0.0 <= r < 1.0

  /** generateRandomNumber: `Math.floor(Math.random() * 100) + 1`. */
  function GenerateRandomNumber(draw: Draw): (n: int)
    ensures InRange(n)
  {
    (draw * 100.0).Floor + 1
  }

  /** Every secret in the range is drawn by some value of `Math.random()`. */
  lemma EveryTargetCanBeDrawn(n: int)
    requires InRange(n)
    ensures GenerateRandomNumber((n - 1) as real / 100.0) == n
  {
    var draw: Draw := (n - 1) as real / 100.0;
    assert draw * 100.0 == (n - 1) as real;
  }

  // ---------------------------------------------------------------------------
  // Feedback

  /** The feedback line. `Blank` is the empty text the component holds before
      its first game starts. */
  datatype Feedback = Blank | Prompt | Invalid | TooLow | TooHigh | Won(count: nat)

  const WinPrefix := "\U{1F389} Congratulations! You guessed it in "

  /** The exact text shown for each feedback. The two longest texts are
      written as two literals each, joined where a space falls, so that
      OtherMessagesLackPopper can read their first characters. */
  function Message(f: Feedback): (m: string)
    ensures m == [] <==> f == Blank
  {
    match f
    case Blank => ""
    case Prompt => "I'm thinking of a number between" + " 1 and 100. Can you guess it?"
    case Invalid => "Please enter a valid number between" + " 1 and 100!"
    case TooLow => "Too low! Try a higher number."
    case TooHigh => "Too high! Try a lower number."
    case Won(n) => WinPrefix + DecimalString(n) + " " + (if n == 1 then "attempt" else "attempts") + "!"
  }

  predicate EndsWith(s: string, suffix: string) {
    |suffix| <= |s| && s[|s| - |suffix|..] == suffix
  }

  /** The win message is the fixed greeting, then the count in decimal, and
      `parseInt` reads that count back from the text after the greeting. */
  lemma WinMessageShowsCount(n: nat)
    ensures |WinPrefix| <= |Message(Won(n))|
    ensures Message(Won(n))[..|WinPrefix|] == WinPrefix
    ensures Message(Won(n))[0] == '\U{1F389}'
    ensures ParseInt(Message(Won(n))[|WinPrefix|..]) == Some(n)
  {
    var word := if n == 1 then "attempt" else "attempts";
    var rest := " " + word + "!";
    var m := Message(Won(n));
    assert m == WinPrefix + (DecimalString(n) + rest);
    assert m[|WinPrefix|..] == "" + (DecimalString(n) + rest);
    ParseIntReadsDecimal("", n, rest);
  }

  /** One attempt is "attempt", any other count "attempts". */
  lemma WinMessageWording(n: nat)
    ensures EndsWith(Message(Won(n)), " attempt!") <==> n == 1
    ensures EndsWith(Message(Won(n)), " attempts!") <==> n != 1
  {
    var m := Message(Won(n));
    var d := DecimalString(n);
    if n == 1 {
      assert m == (WinPrefix + d) + " attempt!";
      assert m[|m| - 10..][0] == m[|m| - 10] == d[|d| - 1];
    } else {
      assert m == (WinPrefix + d) + " attempts!";
      assert m[|m| - 9..][0] == m[|m| - 9] == 'a';
    }
  }

  /** The first character of each of the other messages; none is the party
      popper that opens the win message. */
  lemma OtherMessagesLackPopper()
    ensures Message(Prompt)[0] == 'I'
    ensures Message(Invalid)[0] == 'P'
    ensures Message(TooLow)[0] == 'T' && Message(TooLow)[4] == 'l'
    ensures Message(TooHigh)[0] == 'T' && Message(TooHigh)[4] == 'h'
  {
  }

  /** Different feedback never shows the same text, so the text the page
      displays determines the feedback. */
  lemma MessagesDiffer(f: Feedback, g: Feedback)
    requires Message(f) == Message(g)
    ensures f == g
  {
    if f.Won? && g.Won? {
      WinMessageShowsCount(f.count);
      WinMessageShowsCount(g.count);
    } else if f.Won? || g.Won? {
      var w, o := if f.Won? then f else g, if f.Won? then g else f;
      WinMessageShowsCount(w.count);
      if o != Blank {
        OtherMessagesLackPopper();
      }
    } else if f == TooLow || f == TooHigh {
      OtherMessagesLackPopper();
    }
  }

  // ---------------------------------------------------------------------------
  // State

  /** The component's hook state, field for field. */
  datatype GameState = GameState(
    targetNumber: int,
    userGuess: string,
    attempts: nat,
    feedback: Feedback,
    gameWon: bool,
    gameStarted: bool,
    guessHistory: seq<int>)

  /** The `useState` initial values, before the mount effect runs. */
  const Initial := GameState(0, "", 0, Blank, false, false, [])

  /** The invariant of every state from the first `startNewGame` on, while
      the page routes guesses only through its guarded controls. */
  predicate Consistent(s: GameState) {
    var h := s.guessHistory;
    && s.gameStarted
    && InRange(s.targetNumber)
    && s.attempts == |h|
    && (forall i :: 0 <= i < |h| ==> InRange(h[i]))
    && (s.gameWon <==> s.targetNumber in h)
    && (s.gameWon ==>
          && |h| > 0
          && h[|h| - 1] == s.targetNumber
          && s.targetNumber !in h[..|h| - 1]
          && s.feedback == Won(s.attempts))
    && (!s.gameWon ==> s.feedback in {Prompt, Invalid, TooLow, TooHigh})
    && (s.feedback == Prompt ==> h == [])
    && (s.feedback == TooLow ==> |h| > 0 && h[|h| - 1] < s.targetNumber)
    && (s.feedback == TooHigh ==> |h| > 0 && h[|h| - 1] > s.targetNumber)
  }

  /** startNewGame: a fresh secret and every other field reset. The previous
      state plays no part. */
  function NewGame(draw: Draw): (s: GameState)
    ensures Consistent(s)
    ensures s.targetNumber == GenerateRandomNumber(draw)
    ensures s.userGuess == "" && s.attempts == 0 && s.feedback == Prompt
    ensures !s.gameWon && s.gameStarted && s.guessHistory == []
  {
    GameState(GenerateRandomNumber(draw), "", 0, Prompt, false, true, [])
  }

  /** The guard of handleGuess: `parseInt` produced a number within range. */
  predicate Accepted(guess: Option<int>) {
    guess.Some? && InRange(guess.value)
  }

  /** Typed as a decimal numeral, with an optional sign in front and any
      text after it that ends the numeral, a guess is accepted exactly when
      it is not negated and its value lies in [1, 100]. */
  lemma TypedNumeralAccepted(sign: string, n: nat, rest: string)
    requires sign == "" || sign == "+" || sign == "-"
    requires EndsNumeral(DecimalString(n), rest)
    ensures Accepted(ParseInt(sign + (DecimalString(n) + rest))) <==> sign != "-" && InRange(n)
  {
    ParseIntReadsDecimal(sign, n, rest);
  }

  /** The same for any run of decimal digits, leading zeros included: "05"
      is accepted as 5 and "0050" as 50. */
  lemma TypedDigitsAccepted(sign: string, d: string, rest: string)
    requires sign == "" || sign == "+" || sign == "-"
    requires d != [] && (forall i :: 0 <= i < |d| ==> '0' <= d[i] <= '9')
    requires EndsNumeral(d, rest)
    ensures Accepted(ParseInt(sign + (d + rest))) <==> sign != "-" && InRange(DigitsValue(d, 10))
  {
    ParseIntReadsDigits(sign, d, rest, DigitsValue(d, 10));
  }

  /** A lone "0" followed by "x" and hexadecimal digits is not read as 0:
      "0x1F" is accepted as the guess 31. */
  lemma HexTextAccepted()
    ensures Accepted(ParseInt("0x1F")) && ParseInt("0x1F").value == 31
  {
    ParseIntHexExample();
  }

  /** The feedback for an accepted guess, given the attempt count after it. */
  function Verdict(guess: int, target: int, newAttempts: nat): Feedback {
    if guess == target then Won(newAttempts)
    else if guess < target then TooLow
    else TooHigh
  }

  /** handleGuess, which does not itself look at `gameWon`. A rejected
      input only sets the validation message; an accepted guess is counted,
      recorded, judged and cleared from the input. */
  function Guessed(s: GameState): GameState {
    Judged(s, ParseInt(s.userGuess))
  }

  /** handleGuess once the input has been read as `guess`. */
  function Judged(s: GameState, guess: Option<int>): GameState {
    if !Accepted(guess) then s.(feedback := Invalid)
    else
      var newAttempts := s.attempts + 1;
      s.(attempts := newAttempts,
         guessHistory := s.guessHistory + [guess.value],
         gameWon := if guess.value == s.targetNumber then true else s.gameWon,
         feedback := Verdict(guess.value, s.targetNumber, newAttempts),
         userGuess := "")
  }

  /** The colour of a history chip: green for the secret, red below it,
      orange above it. */
  datatype Chip = Hit | Below | Above

  function ChipFor(guess: int, target: int): Chip {
    if guess == target then Hit else if guess < target then Below else Above
  }

  // ---------------------------------------------------------------------------
  // Events

  /** What the rendered page can do to the state. The input and the Guess
      button are on the page only while the game is not won. */
  datatype Event =
    | Mount(draw: Draw)           // the effect that starts the first game
    | NewGameClick(draw: Draw)
    | Type(text: string)          // onChange of the guess input
    | KeyPress(key: string)       // onKeyPress of the guess input
    | GuessClick

  function Step(s: GameState, e: Event): GameState {
    match e
    case Mount(d) => if !s.gameStarted then NewGame(d) else s
    case NewGameClick(d) => NewGame(d)
    case Type(text) => if s.gameWon then s else s.(userGuess := text)
    case KeyPress(key) => if key == "Enter" && !s.gameWon then Guessed(s) else s
    case GuessClick => if s.gameWon then s else Guessed(s)
  }

  function Run(s: GameState, events: seq<Event>): GameState
    decreases |events|
  {
    if events == [] then s else Run(Step(s, events[0]), events[1..])
  }

  // ---------------------------------------------------------------------------
  // Properties of one guess

  /** A rejected input changes the feedback and nothing else, not even the
      input text, and submitting it again changes nothing more. */
  lemma RejectedGuessOnlySetsFeedback(s: GameState)
    requires !Accepted(ParseInt(s.userGuess))
    ensures Guessed(s) == s.(feedback := Invalid)
    ensures Guessed(Guessed(s)) == Guessed(s)
  {
  }

  /** An accepted guess adds exactly one attempt, appends the guess to the
      history, clears the input and leaves the secret alone. */
  lemma AcceptedGuessIsRecorded(s: GameState)
    requires Accepted(ParseInt(s.userGuess))
    ensures var t := Guessed(s);
      && t.attempts == s.attempts + 1
      && t.guessHistory == s.guessHistory + [ParseInt(s.userGuess).value]
      && t.userGuess == ""
      && t.targetNumber == s.targetNumber
      && t.gameStarted == s.gameStarted
  {
  }

  /** The game is won after a guess exactly when it was won before or the
      guess was accepted and equal to the secret; the secret never changes. */
  lemma WonExactlyOnHit(s: GameState)
    ensures var g := ParseInt(s.userGuess);
      Guessed(s).gameWon <==> s.gameWon || (Accepted(g) && g.value == s.targetNumber)
    ensures Guessed(s).targetNumber == s.targetNumber
  {
  }

  /** A miss says "too low" exactly when the guess is below the secret and
      "too high" exactly when it is above. */
  lemma FeedbackPolarity(s: GameState)
    requires Accepted(ParseInt(s.userGuess))
    requires ParseInt(s.userGuess).value != s.targetNumber
    ensures var g := ParseInt(s.userGuess).value;
      && (Guessed(s).feedback == TooLow <==> g < s.targetNumber)
      && (Guessed(s).feedback == TooHigh <==> g > s.targetNumber)
  {
  }

  /** A hit shows the win message with the new attempt count. */
  lemma HitShowsNewCount(s: GameState)
    requires Accepted(ParseInt(s.userGuess))
    requires ParseInt(s.userGuess).value == s.targetNumber
    ensures Guessed(s).feedback == Won(s.attempts + 1)
    ensures ParseInt(Message(Guessed(s).feedback)[|WinPrefix|..]) == Some(s.attempts + 1)
  {
    assert Guessed(s) == Judged(s, Some(s.targetNumber));
    WinMessageShowsCount(s.attempts + 1);
  }

  /** With the secret 50, typing "50" wins at the first attempt, and the
      message says "1 attempt". */
  lemma FirstGuessHits()
    ensures var s := Guessed(NewGame(0.49).(userGuess := "50"));
      s.gameWon && s.attempts == 1 && s.guessHistory == [50]
      && EndsWith(Message(s.feedback), " attempt!")
  {
    assert ParseInt("50") == Some(50) by {
      assert DecimalString(50) == [DigitChar(5), DigitChar(0)] == "50";
      DecimalRoundTrip(50);
    }
    WinMessageWording(1);
  }

  /** A whole game: with the secret 50, the guesses 30, 70 and 50, as
      parseInt reads them from "30", "70" and "50" (DecimalRoundTrip), give
      "too low", "too high" and then the win at the third attempt. */
  lemma ThreeGuessGame()
    ensures var s0 := NewGame(0.49);
      var s1 := Judged(s0.(userGuess := "30"), Some(30));
      var s2 := Judged(s1.(userGuess := "70"), Some(70));
      var s3 := Judged(s2.(userGuess := "50"), Some(50));
      && s1.feedback == TooLow && s2.feedback == TooHigh && s3.feedback == Won(3)
      && s3.gameWon && s3.guessHistory == [30, 70, 50] && s3.userGuess == ""
      && EndsWith(Message(s3.feedback), " attempts!")
  {
    WinMessageWording(3);
  }

  /** A history chip has the colour that matches the feedback the same guess
      would get. */
  lemma ChipMatchesVerdict(guess: int, target: int, newAttempts: nat)
    ensures ChipFor(guess, target) == Hit <==> Verdict(guess, target, newAttempts).Won?
    ensures ChipFor(guess, target) == Below <==> Verdict(guess, target, newAttempts) == TooLow
    ensures ChipFor(guess, target) == Above <==> Verdict(guess, target, newAttempts) == TooHigh
  {
  }

  /** In a consistent state only the last chip can be green, and it is green
      exactly when the game is won. */
  lemma ChipsOfHistory(s: GameState, i: int)
    requires Consistent(s)
    requires 0 <= i < |s.guessHistory|
    ensures ChipFor(s.guessHistory[i], s.targetNumber) == Hit <==> s.gameWon && i == |s.guessHistory| - 1
  {
    var h := s.guessHistory;
    if s.gameWon && i < |h| - 1 {
      assert h[..|h| - 1][i] == h[i];
    }
  }

  lemma GuessKeepsConsistent(s: GameState)
    requires Consistent(s) && !s.gameWon
    ensures Consistent(Guessed(s))
  {
    var g := ParseInt(s.userGuess);
    if Accepted(g) {
      var t := Guessed(s);
      var h := t.guessHistory;
      assert h[..|h| - 1] == s.guessHistory;
      assert t.targetNumber in h <==> t.targetNumber in s.guessHistory || g.value == t.targetNumber;
    }
  }

  lemma StepKeepsConsistent(s: GameState, e: Event)
    requires Consistent(s)
    ensures Consistent(Step(s, e))
  {
    match e
    case KeyPress(key) =>
      if key == "Enter" && !s.gameWon { GuessKeepsConsistent(s); }
    case GuessClick =>
      if !s.gameWon { GuessKeepsConsistent(s); }
    case _ =>
  }

  // ---------------------------------------------------------------------------
  // Properties of whole runs

  lemma {:induction false} RunKeepsConsistent(s: GameState, events: seq<Event>)
    requires Consistent(s)
    ensures Consistent(Run(s, events))
    decreases |events|
  {
    if events != [] {
      StepKeepsConsistent(s, events[0]);
      RunKeepsConsistent(Step(s, events[0]), events[1..]);
    }
  }

  /** Every state the page can reach after mounting is consistent: the
      history is as long as the attempt count, holds only values in range,
      contains the secret exactly when the game is won, and so on. */
  lemma MountedStatesAreConsistent(draw: Draw, events: seq<Event>)
    ensures Consistent(Run(Initial, [Mount(draw)] + events))
  {
    assert ([Mount(draw)] + events)[1..] == events;
    RunKeepsConsistent(NewGame(draw), events);
  }

  predicate StartsNoGame(events: seq<Event>) {
    forall i :: 0 <= i < |events| ==> !events[i].NewGameClick?
  }

  /** Once the game is won, nothing but a new game changes the state. */
  lemma {:induction false} WonIsTerminal(s: GameState, events: seq<Event>)
    requires s.gameStarted && s.gameWon
    requires StartsNoGame(events)
    ensures Run(s, events) == s
    decreases |events|
  {
    if events != [] {
      assert !events[0].NewGameClick?;
      assert Step(s, events[0]) == s;
      WonIsTerminal(s, events[1..]);
    }
  }

  /** Within one game the secret stays, the history only grows at its end,
      the attempt count never falls and a win is never taken back. */
  lemma {:induction false} GameOnlyGrows(s: GameState, events: seq<Event>)
    requires s.gameStarted
    requires StartsNoGame(events)
    ensures var t := Run(s, events);
      && t.gameStarted
      && t.targetNumber == s.targetNumber
      && |s.guessHistory| <= |t.guessHistory|
      && t.guessHistory[..|s.guessHistory|] == s.guessHistory
      && s.attempts <= t.attempts
      && (s.gameWon ==> t.gameWon)
    decreases |events|
  {
    if events != [] {
      var s' := Step(s, events[0]);
      assert !events[0].NewGameClick?;
      assert s'.gameStarted && s'.targetNumber == s.targetNumber;
      assert |s.guessHistory| <= |s'.guessHistory| && s'.guessHistory[..|s.guessHistory|] == s.guessHistory;
      GameOnlyGrows(s', events[1..]);
      var t := Run(s', events[1..]);
      assert t.guessHistory[..|s'.guessHistory|][..|s.guessHistory|] == t.guessHistory[..|s.guessHistory|];
    }
  }
}
