# Mastermind engine in Dafny

This project models the game engine of a console Mastermind program written in
Ruby (`mastermind.rb`). The engine has two parts.

- **The board** (`MastermindBoard`, module `Board`, file `board.dfy`). It holds
  the colour alphabet, the code length, the guess budget, the secret code and
  the append-only lists of guesses and responses. Its operations are setting
  the code, validating a code or guess, submitting a guess, the game-over test
  and the codemaker's points. The class invariant `Valid()` states the history
  the board keeps:
  - there is one response per guess;
  - there are never more guesses than the budget, and none before the code is set;
  - every recorded guess is valid and upcased;
  - every response is the feedback rule applied to its guess and the code;
  - no guess except possibly the last one equals the code.
- **The feedback rule** (module `Pegs`, file `pegs.dfy`). `Exact` counts the
  positions where guess and code agree. `Common` is the size of the multiset
  intersection of guess and code. The response is `|code| - Common` blanks,
  then `Common - Exact` dashes, then `Exact` pluses. The board adds up, over the
  code's distinct colours, the smaller of the two occurrence counts. `TotalIsCommon`
  proves that this sum is exactly `Common`.
- **The computer codebreaker** (`ComputerPlayer`, module `Codebreaker`, file
  `codebreaker.dfy`). Its pool starts as every code of the right length over the
  alphabet, in shuffled order. On each turn it pops candidates off the end of
  the pool. It stops at the first candidate that a scratch board, given that
  candidate as its code, answers with exactly the recorded responses.
  `Consistent` states that acceptance test as a predicate. It includes the
  scratch board's game-over rule: a candidate equal to a past guess other than
  the last is refused. On a real board's history this is the same as plain re-scoring
  (`BoardHistoryRescoring`).
- **Helpers** (modules `Text` and `Settings`). These are ASCII upcasing, the
  letters-only test for a typed alphabet, and the table of maximum code lengths
  per alphabet size.

Messages the Ruby code prints (invalid colour, wrong length, game over, code
changed mid-game, list sizes differ) are returned as `Diagnostic` values beside
each result. A `nil` result is `None`.

Three behaviours of the code are worth stating outright:
- Guess KRRY against code GBRK is answered with one `+` (the R in third
  place) and one `-` (the K), that is `"  -+"`. `Pegs.ExampleInPlaceAndOut`
  proves this.
- The code may be replaced any number of times before the first guess; only a
  change after a guess is refused.
- The codebreaker replays the whole history for every candidate, not only the
  latest response. It also refuses a candidate equal to a past guess other
  than the last, because the scratch board is over by then.

**The game loop** (module `Game`, file `game.dfy`) is the script's turn loop
with the computer as codebreaker: while the board's game is not over, the
codebreaker guesses from the board's history and the board records the guess.
`PlayTurn` proves that after each turn the secret code has been guessed or is
still in the codebreaker's pool. `PlayGame` proves that the loop ends and the
game is then over. A fresh codebreaker's pool holds every valid code
(`CombosAreValidCodes`), so a secret the board accepted starts in the pool.

## Model

| member | source | states |
|---|---|---|
| `Text.UpcaseIdempotent` | mastermind.rb:23 | upcasing a stored (already upcased) guess again leaves it unchanged, so a replayed guess is the guess that was recorded |
| `Text.OnlyAlphabetic` | mastermind.rb:271-273 | true exactly when every character of the text is an ASCII letter a-z or A-Z (the empty text included) |
| `Text.AlphabeticColorsAreCapitals` | mastermind.rb:222-227 | an alphabet that passed the letters-only test becomes capital letters once upcased, and those are fixed by upcasing |
| `Pegs.Uniq` | mastermind.rb:90 | the code's distinct colours: no repeats, and exactly the colours of the code |
| `Pegs.Exact` | mastermind.rb:82-83 | the number of equal positions is at most the length |
| `Pegs.ExactAllIffEqual` | mastermind.rb:82-83 | every position matches if and only if the two sequences are equal |
| `Pegs.ExactZero` | mastermind.rb:82-83 | with no equal position the match count is zero |
| `Pegs.ExactSymmetric` | mastermind.rb:82-83 | the positional match count does not depend on which sequence is the code |
| `Pegs.MatchedIsExact` | mastermind.rb:82-83 | the symbols at matching positions are `Exact` many and occur in both sequences |
| `Pegs.CommonAtMostLength` | mastermind.rb:89-93 | the shared-colour total is at most the length of the code and of the guess, so the blank count is never negative |
| `Pegs.ExactAtMostCommon` | mastermind.rb:95-96 | exact matches are at most the shared-colour total, so the `-` count is never negative |
| `Pegs.TotalIsCommon` | mastermind.rb:89-93 | the sum, over the code's distinct colours, of the smaller occurrence count equals the size of the multiset intersection of guess and code |
| `Pegs.ResponseLayout` | mastermind.rb:95-99 | the response has the code's length and reads blanks up to `length - Common`, then `-` up to `length - Exact`, then `+` |
| `Pegs.ResponseCounts` | mastermind.rb:95-99 | the response holds exactly `Exact` pluses, `Common - Exact` dashes and `length - Common` blanks, and these counts are never negative |
| `Pegs.ResponseShape` | mastermind.rb:95-99 | the response has the code's length, is blanks then `-` then `+`, and holds exactly `Exact` pluses, `Common - Exact` dashes and `length - Common` blanks |
| `Pegs.ResponseToCode` | mastermind.rb:88-99 | the code scored against itself is all `+` |
| `Pegs.AllPlusIffEqual` | mastermind.rb:88-99 | the response is all `+` if and only if the guess equals the code |
| `Pegs.NoSharedColor` | mastermind.rb:88-99 | a guess sharing no colour with the code gets all blanks |
| `Pegs.ResponseSymmetric` | mastermind.rb:88-99 | swapping guess and code gives the same response |
| `Pegs.Response` | mastermind.rb:88-99 | the response has one symbol per code position |
| `Pegs.PermuteMultiset` | mastermind.rb:89-93 | rearranging the positions of a sequence keeps every colour's number of occurrences |
| `Pegs.PermuteExact` | mastermind.rb:82-83 | rearranging the positions of guess and code by the same permutation keeps the number of exact matches |
| `Pegs.ResponsePermutationInvariant` | mastermind.rb:88-99 | rearranging the positions of guess and code by the same permutation leaves the response unchanged: the score does not depend on the order of the positions |
| `Pegs.ExampleOneOutOfPlace` | mastermind.rb:88-99 | code GBRK, guess YYBB gives three blanks and one `-` |
| `Pegs.ExampleInPlaceAndOut` | mastermind.rb:88-99 | code GBRK, guess KRRY gives two blanks, one `-` and one `+` |
| `Pegs.ExampleRepeatedColours` | mastermind.rb:88-99 | code AABB, guess ABAB gives two `-` and two `+` |
| `Board.ValidIffNoDiagnostics` | mastermind.rb:102-117 | a code is valid exactly when the board has no message to print about it |
| `Board.MastermindBoard.constructor` | mastermind.rb:4-11 | a new board has the given alphabet, length and budget, no code and an empty history, and satisfies the history invariant |
| `Board.MastermindBoard.Default` | mastermind.rb:4-5 | the default board has colours K W R G B Y, length 4 and 12 guesses |
| `Board.MastermindBoard.SolvedIffLastIsCode` | mastermind.rb:13-15 | on a board satisfying the history invariant, the code counts as guessed exactly when the latest guess is the code |
| `Board.MastermindBoard.GameOverIffAllPlus` | mastermind.rb:13-15 | on a board satisfying the history invariant, the game is over exactly when the budget is used up or the latest response is all `+` |
| `Board.MastermindBoard.Points` | mastermind.rb:38-44 | on a won game the points are the number of guesses and the last guess is the code; on a game lost by exhausting the budget they are the budget plus one; while the game goes on they are the guesses so far |
| `Board.MastermindBoard.SetCode` | mastermind.rb:46-56 | after a guess it fails, reports the mid-game change and keeps the code; before that it stores the upcased code exactly when it is valid, returns that validity with the validation messages, and keeps the invariant |
| `Board.MastermindBoard.MakeGuess` | mastermind.rb:13-36 | when the game is over or the upcased guess is invalid it returns nothing, reports why and leaves the history unchanged; otherwise it appends exactly the guess and its response (the feedback rule against the code) and returns that response; the invariant keeps the history within the budget, so the over-budget message is never produced |
| `Board.MastermindBoard.CountMatches` | mastermind.rb:75-86 | lists of different sizes are reported and give 0; otherwise the result is the number of equal positions, at most the list size |
| `Board.MastermindBoard.EvaluateGuess` | mastermind.rb:88-100 | the response is the feedback rule: `length - Common` blanks, `Common - Exact` dashes and `Exact` pluses, and has the code's length |
| `Board.MastermindBoard.ValidCode` | mastermind.rb:102-117 | valid exactly when the code has the board's length and every symbol is a board colour; the messages are the length message if needed, then one per bad symbol; valid exactly when there are no messages |
| `Codebreaker.GenerateCombos` | mastermind.rb:173-177 | the number of combinations is the alphabet size raised to the code length |
| `Codebreaker.CombosAreValidCodes` | mastermind.rb:173-177 | a sequence is a combination if and only if it has the given length and uses only the given colours |
| `Codebreaker.CombosDistinct` | mastermind.rb:173-177 | with a duplicate-free alphabet no combination occurs twice |
| `Codebreaker.ConsistentStep` | mastermind.rb:179-188 | a candidate that passes the replay of the first `i` rounds also passes round `i + 1` exactly when that guess, upcased and valid, scores its recorded response against the candidate and no earlier guess was the candidate |
| `Codebreaker.ConsistentPrefix` | mastermind.rb:179-188 | a candidate that passes the acceptance test on a history passes it on every prefix of that history |
| `Codebreaker.RescoringIff` | mastermind.rb:179-188 | on valid upcased guesses where no response before the last is all `+`, the acceptance test holds if and only if every past guess scored against the candidate gives its recorded response |
| `Codebreaker.SecretConsistent` | mastermind.rb:179-188 | a board's secret code passes the acceptance test on that board's history, so the codebreaker never discards it |
| `Codebreaker.BoardHistoryRescoring` | mastermind.rb:179-188 | on a board's history, a valid candidate passes the acceptance test if and only if re-scoring every past guess against it reproduces the recorded response |
| `Codebreaker.ComputerPlayer.constructor` | mastermind.rb:148-151 | the pool is the given permutation of all combinations, and every candidate in it is a valid code |
| `Codebreaker.ComputerPlayer.ChooseCode` | mastermind.rb:153-155 | removes and returns the last candidate; on an empty pool it returns nothing and changes nothing |
| `Codebreaker.ComputerPlayer.GoodGuess` | mastermind.rb:179-188 | the scratch-board replay accepts the candidate exactly when it passes the acceptance test `Consistent` |
| `Codebreaker.ComputerPlayer.MakeGuess` | mastermind.rb:157-170 | with a history, the returned guess passes the acceptance test, every candidate popped before it fails it, and no candidate that passes it is lost; without a history it is the last candidate; every call on a non-empty pool leaves a strictly shorter prefix of the pool |
| `Codebreaker.ComputerPlayer.PopConsistent` | mastermind.rb:162-166 | pops candidates until the replay accepts one: the pool becomes a strictly shorter prefix, the guess is the candidate just after it and passes the acceptance test, and every candidate popped before it fails the test |
| `Codebreaker.ComputerPlayer.TryNext` | mastermind.rb:162-166 | one round of the search pops the last candidate and accepts it exactly when it passes the acceptance test; a rejected candidate joins the failed suffix, and a consistent candidate still in the pool stays there |
| `Game.PlayTurn` | mastermind.rb:320-324 | one turn appends the codebreaker's guess and its response to the board's history and shrinks the pool; afterwards the secret code has been guessed or is still in the pool |
| `Game.PlayGame` | mastermind.rb:320-324 | the turn loop ends with the game over and the history within the budget, and the secret code has then been guessed or is still in the pool |
| `Settings.MaxLengthFor` | mastermind.rb:254-269 | the offered maximum length is between 4 and 20 |
| `Settings.MaxLengthNonIncreasing` | mastermind.rb:254-269 | from two colours up, more colours never allow a longer code |
| `Settings.PoolSizeBounded` | mastermind.rb:253-269 | for 2 to 20 colours, every code length up to the table's maximum gives a pool of at most 3,200,000 candidates |
| `Settings.MaxLengthIsTight` | mastermind.rb:253-269 | one position more than the table's maximum would give more than 2,000,000 candidates |

## Left out

- Console output is not modelled: the board drawing (`to_s`), the banner, and the script's set-up at lines 279-318 (choosing the players and setting the code). Its turn loop is modelled by `Game.PlayGame` with the computer as codebreaker; a human codebreaker reads from the terminal.
- The interactive input loops are not modelled: `get_colors`, `get_code_length`, `get_integer` and `get_max_guesses`, and `HumanPlayer`, which reads from the terminal.
- `positive_integer?` is not modelled: it depends on Ruby's `Integer()` parsing rules, which are not part of this model.
- `Player#choose_code` and `Player#make_guess` are not modelled: they draw a code with `rand`.
- Player names, scores and `increase_score` are not modelled: the engine never reads them.
- The `sleep 2` and `puts guess` in `ComputerPlayer#make_guess` are left out: they are only timing and output.
- The `shuffle` in `generate_combos` is a caller-supplied permutation: `GenerateCombos` gives the combinations in order, and the `ComputerPlayer` constructor takes any order that holds exactly those combinations.
- `Text.Upcase` upcases ASCII letters only; Ruby's `upcase` also maps other Unicode letters.
- Colours are single characters. The Ruby alphabet is an array of strings, but every alphabet the program builds has one character per colour.
- `MastermindBoard.codeLength` and `maxGuesses` are natural numbers. The program only produces positive values, and a scratch board's budget is a history length.
- Board.MastermindBoard.MakeGuess: requires a code to be set when the game is not over and the guess is valid, because the Ruby code fails (`nil.uniq`) in that case.
- Codebreaker.ComputerPlayer.MakeGuess: with a history, requires some candidate left in the pool to pass the acceptance test, because the Ruby code fails when the pool runs dry. `SecretConsistent` shows the true code meets this while it is still in the pool.
- Codebreaker.ComputerPlayer.GoodGuess: requires the upcased candidate to be a valid code, because otherwise the scratch board keeps no code and the replay fails. Every pool member meets this.
- Codebreaker.ComputerPlayer.constructor: requires every colour to be fixed by upcasing, because otherwise a candidate set as the scratch board's code is rejected and the replay fails. The program's alphabets are the default capitals or an upcased typed alphabet (`Text.AlphabeticColorsAreCapitals`).
- Game.PlayTurn and Game.PlayGame: require the secret code to be in the codebreaker's pool (or already guessed), because otherwise `ComputerPlayer#make_guess` can run the pool dry and the Ruby code fails. A fresh pool holds every valid code.
- Pruning the alphabet after a response with no matches is not modelled: the program never prunes its alphabet.
