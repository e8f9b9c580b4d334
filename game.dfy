/** The game loop of the console script: while the board's game is not over,
    the computer codebreaker guesses from the board's history and the board
    records the guess. */
module Game {
  import opened Wrappers
  import opened Text
  import opened Pegs
  import opened Board
  import opened Codebreaker

  /** One turn: the codebreaker picks a guess from the board's history and the
      board records it with its response. The secret code is either guessed
      on this turn or still in the codebreaker's pool. */
  method PlayTurn(b: MastermindBoard, p: ComputerPlayer) returns (guess: string, response: string)
    requires b.Valid() && p.Valid()
    requires p.colors == b.colors && p.codeLength == b.codeLength
    requires b.code.Some? && b.code.value in p.possibilities
    requires !b.GameOver()
    modifies b`guesses, b`responses, p`possibilities
    ensures b.Valid() && p.Valid()
    ensures b.code == old(b.code)
    ensures IsValidCode(b.colors, b.codeLength, guess)
    ensures b.guesses == old(b.guesses) + [guess]
    ensures b.responses == old(b.responses) + [response]
    ensures response == Response(guess, b.code.value)
    ensures |p.possibilities| < |old(p.possibilities)|
    ensures b.Solved() || b.code.value in p.possibilities
  {
    var secret := b.code.value;
    ghost var pool := p.possibilities;
    SecretConsistent(b);
    ghost var i :| 0 <= i < |pool| && pool[i] == secret;
    var pick := p.MakeGuess(b.guesses, b.responses);
    guess := pick.value;
    assert guess in pool;
    assert IsValidCode(b.colors, b.codeLength, guess);
    UpcaseFixed(guess);
    var recorded, _ := b.MakeGuess(guess);
    response := recorded.value;
    if guess == secret {
      assert b.guesses[|b.guesses| - 1] == secret;
    }
  }

  /** The whole game: turns until the board's game is over. Each turn uses up
      one guess of the budget, so the loop ends; at the end the code has been
      guessed or is still in the codebreaker's pool. */
  method PlayGame(b: MastermindBoard, p: ComputerPlayer)
    requires b.Valid() && p.Valid()
    requires p.colors == b.colors && p.codeLength == b.codeLength
    requires b.code.Some? && (b.Solved() || b.code.value in p.possibilities)
    modifies b`guesses, b`responses, p`possibilities
    ensures b.Valid() && p.Valid() && b.GameOver()
    ensures b.Solved() || b.code.value in p.possibilities
    ensures |b.guesses| == |b.responses| <= b.maxGuesses
  {
    while !b.GameOver()
      invariant b.Valid() && p.Valid() && b.code.Some?
      invariant b.Solved() || b.code.value in p.possibilities
      decreases b.maxGuesses - |b.guesses|
    {
      var _, _ := PlayTurn(b, p);
    }
  }
}
