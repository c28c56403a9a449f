# Number guessing game: a Dafny model

The repository is a one-page React application, `src/App.tsx`. The page draws a secret number between 1 and 100 and lets the player guess it. An input that is not a number from 1 to 100 gets a validation message. Each accepted guess gets one of three answers: "too low", "too high" or a congratulation that gives the number of attempts. The page also shows every accepted guess as a coloured chip, and a button starts a new game.

All of the logic lives in the `App` component:
- the hook state: `targetNumber`, `userGuess`, `attempts`, `feedback`, `gameWon`, `gameStarted` and `guessHistory`;
- the handlers `startNewGame`, `handleGuess` and `handleKeyPress`;
- the mount effect;
- `generateRandomNumber`;
- the three-way colour choice for the history chips.

The model has three modules:

- `NumberText` (NumberText.dfy): the two conversions the game takes from its JavaScript runtime.
  - `parseInt` without a radix, as section 19.2.5 of ECMA-262 defines it. It trims StrWhiteSpace and reads an optional sign. A "0x"/"0X" prefix selects radix 16. It reads the longest run of digits, and no digit at all is NaN (`None`).
  - The decimal text of a count, which the win message's template literal produces.
  - Lemmas prove that `parseInt` reads any run of decimal digits back to its value, leading zeros included ("05" reads as 5), whatever sign comes before it and whatever text after it ends the numeral. Text ends a numeral when it does not start with a digit and, after a lone "0", does not start with "x" or "X". So "5x" reads as 5, but "0x1F" reads as 31.
- `Guessing` (Guessing.dfy): the game as values.
  - `GameState` holds the hook state field for field. `Feedback` names the six texts the feedback line can hold, and `Message` renders each one exactly.
  - `NewGame` and `Guessed` are the two handlers as functions. `Judged` is handleGuess once the input has been read.
  - `Step` and `Run` describe what the rendered page lets the user do. Enter is ignored once the game is won. The input box and the Guess button exist only while it is not.
  - `Consistent` is the invariant every reachable state keeps. The properties of the game are proved here.
- `App` (App.dfy): the component as the class `Session`. Its fields are the hook state. Its methods update them one at a time, as the setters do, including handleGuess's early return. Each method is tied to the matching function of `Guessing` through `State()`.

The secret is drawn from a `Draw`, a real number in [0, 1) that stands for the value of `Math.random()`. The browser's key events and input events become the method parameters `key` and `text`.

Three behaviours of the code that are easy to misread:
- `handleGuess` itself does not look at `gameWon`. Applied to a won game, it still counts and records an accepted guess (`Guessing.Guessed`, `App.Session.HandleGuess`). The game is terminal only because its callers guard it: the Enter handler tests `!gameWon`, and the Guess button and the input box are rendered only while the game is not won (`Guessing.Step`, `App.Session.HandleKeyPress`, `App.Session.ClickGuess`, `App.Session.TypeGuess`).
- A new game resets the fields of the same component. It does not replace the session.
- `parseInt` is called without a radix. So "12abc" reads as 12, "3.9" as 3, "1e2" as 1 and "0x1F" as 31. A guess of "0x1F" is therefore accepted as 31.

## Model

| member | source | states |
|---|---|---|
| NumberText.ParseInt | src/App.tsx:32 | no contract of its own; what it reads is stated by ParseIntNeedsDigit, ParseIntSkipsWhiteSpace, ParseIntSigned, ParseIntReadsDigits, ParseIntReadsDecimal and DecimalRoundTrip |
| NumberText.TrimStartDropsWhiteSpace | src/App.tsx:32 | parseInt's trimming step keeps a suffix of the input, drops only StrWhiteSpace, and what it keeps does not start with white space |
| NumberText.DigitRunIsLongest | src/App.tsx:32 | the digits parseInt reads are all digits of the radix, and the run stops at the first character that is not one |
| NumberText.ParseIntNeedsDigit | src/App.tsx:32-34 | text with no decimal digit in it parses to NaN, which handleGuess rejects |
| NumberText.ParseIntSkipsWhiteSpace | src/App.tsx:32 | leading white space never changes what parseInt reads |
| NumberText.ParseIntSigned | src/App.tsx:32 | a leading "-" negates the number read after it; a leading "+" or no sign leaves it as it is |
| NumberText.ParseIntReadsDigits | src/App.tsx:32 | an optional sign, any run of decimal digits (leading zeros included), then text that neither continues the digits nor, after a lone "0", starts with "x" or "X", parse to the digits' value with that sign |
| NumberText.ParseIntReadsDecimal | src/App.tsx:32 | the same for the decimal text the runtime writes for n: an optional sign, that text, then text that neither continues the digits nor, after a lone "0", starts with "x" or "X", parse to n with that sign |
| NumberText.ParseIntStopsAtLetterX | src/App.tsx:32 | "5x" reads as 5: an "x" makes a hex prefix only after a lone "0" |
| NumberText.DecimalString | src/App.tsx:45 | the count in the win message is written with decimal digits only, and with no leading zero unless it is 0 |
| NumberText.DecimalStringValue | src/App.tsx:45 | the decimal digits written for a count have exactly that count as their value |
| NumberText.DecimalRoundTrip | src/App.tsx:32 | parseInt reads back every decimal numeral the runtime writes: parse(toString(n)) == n |
| NumberText.ParseIntCutsTrailingText | src/App.tsx:32 | "12abc" reads as 12 |
| NumberText.ParseIntCutsFraction | src/App.tsx:32 | "3.9" reads as 3 |
| NumberText.ParseIntIgnoresExponent | src/App.tsx:32 | "1e2" reads as 1 |
| NumberText.ParseIntHexExample | src/App.tsx:32 | with the radix omitted, "0x1F" reads as 31 |
| NumberText.ParseIntBareHexPrefix | src/App.tsx:32-34 | "0x" or "0X" that is followed by nothing or by a character that is not a hex digit is NaN |
| NumberText.ParseIntLettersAreNaN | src/App.tsx:32-34 | "abc" is NaN |
| NumberText.ParseIntEmptyIsNaN | src/App.tsx:32-34 | the empty input is NaN |
| NumberText.ParseIntBareSignIsNaN | src/App.tsx:32-34 | a lone "-" is NaN |
| Guessing.GenerateRandomNumber | src/App.tsx:14-16 | floor(draw * 100) + 1 lies in [1, 100] for every draw in [0, 1) |
| Guessing.EveryTargetCanBeDrawn | src/App.tsx:14-16 | every number in [1, 100] is drawn by some value in [0, 1), so the range is exactly [1, 100] |
| Guessing.Message | src/App.tsx:24-49 | every feedback the handlers set has a non-empty text; only the initial `''` is empty |
| Guessing.WinMessageShowsCount | src/App.tsx:45 | the win message starts with the party popper and the congratulation, and parseInt reads the new attempt count back from the rest |
| Guessing.WinMessageWording | src/App.tsx:45 | the win message ends in " attempt!" exactly when the count is 1, and in " attempts!" exactly when it is not |
| Guessing.OtherMessagesLackPopper | src/App.tsx:24-49 | the prompt, the validation message, "Too low" and "Too high" each start with their own characters, none of them the party popper |
| Guessing.MessagesDiffer | src/App.tsx:24-49 | different feedback values never render the same text, so the feedback line determines which message was set |
| Guessing.Initial | src/App.tsx:5-11 | no contract; the useState initial values, from which MountedStatesAreConsistent starts |
| Guessing.Consistent | src/App.tsx:31-53 | no contract; the invariant that NewGame establishes and GuessKeepsConsistent, StepKeepsConsistent and RunKeepsConsistent preserve |
| Guessing.NewGame | src/App.tsx:19-28 | startNewGame yields a consistent state: a secret in [1, 100] drawn by generateRandomNumber, no attempts, an empty history and input, not won, started, the startup prompt |
| Guessing.TypedNumeralAccepted | src/App.tsx:32-37 | the decimal text of n, with an optional sign and followed by text that ends it, is accepted exactly when it is not negated and n is in [1, 100] |
| Guessing.TypedDigitsAccepted | src/App.tsx:32-37 | any typed run of decimal digits, leading zeros included, with an optional sign and followed by text that ends it, is accepted exactly when it is not negated and the digits' value is in [1, 100] ("05" is the guess 5) |
| Guessing.HexTextAccepted | src/App.tsx:32-37 | "0x1F" is not read as the out-of-range 0: it is accepted as the guess 31 |
| Guessing.Verdict | src/App.tsx:43-49 | no contract; its meaning is stated by WonExactlyOnHit, FeedbackPolarity and HitShowsNewCount |
| Guessing.Guessed | src/App.tsx:31-53 | no contract; handleGuess as a function, described by RejectedGuessOnlySetsFeedback, AcceptedGuessIsRecorded, WonExactlyOnHit and GuessKeepsConsistent |
| Guessing.Judged | src/App.tsx:34-52 | no contract; handleGuess after the parse, which App.Session.Record is proved to perform |
| Guessing.RejectedGuessOnlySetsFeedback | src/App.tsx:34-37 | NaN or a value outside [1, 100] changes only the feedback, to the validation message; the input text stays, and submitting again changes nothing more |
| Guessing.AcceptedGuessIsRecorded | src/App.tsx:39-52 | an accepted guess adds exactly one attempt, appends the guess at the end of the history, clears the input and leaves the secret and the started flag alone |
| Guessing.WonExactlyOnHit | src/App.tsx:43-44 | after a guess the game is won exactly when it was already won or the guess was accepted and equal to the secret; the secret never changes |
| Guessing.FeedbackPolarity | src/App.tsx:46-49 | an accepted miss says "too low" exactly when the guess is below the secret and "too high" exactly when it is above |
| Guessing.HitShowsNewCount | src/App.tsx:43-45 | a hit sets the win message with the attempt count after this guess, and that count can be read back from the text |
| Guessing.FirstGuessHits | src/App.tsx:31-53 | with the secret 50, typing "50" wins at the first attempt with history [50], and the message ends in " attempt!" |
| Guessing.ThreeGuessGame | src/App.tsx:31-53 | with the secret 50, the guesses 30, 70 and 50 give "too low", "too high" and the win at attempt 3, with history [30, 70, 50], the input cleared and the message ending in " attempts!" |
| Guessing.ChipFor | src/App.tsx:142-146 | no contract; ChipMatchesVerdict and ChipsOfHistory state what each colour means |
| Guessing.ChipMatchesVerdict | src/App.tsx:142-146 | a chip is green, red or orange exactly when the same guess gets the win, "too low" or "too high" |
| Guessing.ChipsOfHistory | src/App.tsx:138-147 | in a consistent state a chip is green exactly when it is the last one and the game is won |
| Guessing.GuessKeepsConsistent | src/App.tsx:31-53 | handleGuess on a consistent, unwon state keeps the invariant: attempts equal the history length, every entry is in [1, 100], won exactly when the secret was guessed and then only as the last entry, the feedback matches the last entry |
| Guessing.Step | src/App.tsx:55-67 | no contract; the page's events with the guards of lines 57 and 110, described by StepKeepsConsistent and WonIsTerminal |
| Guessing.StepKeepsConsistent | src/App.tsx:55-67 | every user action the page allows (mount, New Game, typing, Enter, the Guess button) keeps the invariant |
| Guessing.RunKeepsConsistent | src/App.tsx:55-67 | any sequence of those actions keeps the invariant |
| Guessing.MountedStatesAreConsistent | src/App.tsx:62-67 | every state reachable after the mount effect starts the first game is consistent |
| Guessing.WonIsTerminal | src/App.tsx:55-60 | once the game is won, typing, Enter and the Guess button (rendered only while not won, line 110) change nothing until a new game starts |
| Guessing.GameOnlyGrows | src/App.tsx:31-53 | within one game the secret stays, the history only grows at its end, the attempt count never falls and a win is never taken back |
| App.Session.FeedbackText | src/App.tsx:105 | the feedback line is empty exactly when the feedback is the initial '', so never in a valid session, i.e. once a game has started; and a win message carries its attempt count, which parseInt reads back |
| App.Session.constructor | src/App.tsx:62-67 | mounting sets the useState initial values, then the effect starts a game because none has started: the state is NewGame's and valid |
| App.Session.StartNewGame | src/App.tsx:19-28 | the secret is generateRandomNumber's, in [1, 100]; input, attempts, won flag and history are reset, the prompt is shown, the game is started |
| App.Session.HandleGuess | src/App.tsx:31-53 | the fields end as Guessed of the old state; a valid, unwon session stays valid |
| App.Session.Record | src/App.tsx:34-52 | after the parse, the setters produce exactly Judged of the old state and the parsed value, including the early return that leaves the input unchanged |
| App.Session.HandleKeyPress | src/App.tsx:56-60 | Enter on an unwon game performs handleGuess; any other key, or any key once the game is won, changes no field; a valid session stays valid |
| App.Session.ClickGuess | src/App.tsx:123-125 | the Guess button, rendered only while not won (line 110), performs handleGuess; a valid session stays valid |
| App.Session.TypeGuess | src/App.tsx:116 | onChange of the input, rendered only while not won, sets only the input text; a valid session stays valid |

## Left out

- Rendering: the JSX layout, the Tailwind classes and the lucide-react icons. The icon chosen by `feedback.includes(...)` on lines 102-104 is also left out; `Guessing.MessagesDiffer` shows that the text determines the feedback.
- `Math.random()` is a parameter `draw`, a real number in [0, 1). The model multiplies it exactly, where JavaScript rounds `draw * 100` to a double. Both the proven range [1, 100] and the fact that every value in it can be drawn rest on exact arithmetic.
- `parseInt` returns the exact integer. JavaScript rounds long digit strings to a double. Rounding is monotone and 1 and 100 are exact doubles, so it never changes whether a guess is accepted. Every accepted value is a small integer that the double holds exactly.
- `attempts` is an unbounded natural number and `DecimalString` writes it in plain digits. In JavaScript the count is a double that stops growing at 2^53, and its text switches to exponent form from 10^21 on. No game reaches either bound.
- A negative zero from "-0" is modelled as 0. Both are rejected by the range test.
- The emoji at the start of the win message is one `char`, a code point. JavaScript stores it as two UTF-16 code units.
- React's machinery: setter batching and re-rendering, the `useEffect` dependency list, and the event objects. Each handler runs as one atomic update. The mount effect is `Mount` in `Guessing.Step` and the body of `App.Session.constructor`.
- The browser's `<input type="number">` filtering. Any string may reach `userGuess`.
- A scripted whole game through the `Session` methods, or through `Guessing.Guessed` on the typed text, is not proved for several guesses in a row. `Guessing.ThreeGuessGame` plays three guesses on the values parseInt reads, and `Guessing.FirstGuessHits` plays one guess from the typed text "50".
