/** The Mastermind board: it holds the colour alphabet, the code length, the
    guess budget, the secret code once it is set, and the append-only history of
    guesses and the responses they received. Messages the board would print are
    returned as `Diagnostic` values. */
module Board {
  import opened Wrappers
  import opened Text
  import opened Pegs

  /** What the board reports to the player instead of accepting an input. */
  datatype Diagnostic =
    | GameAlreadyOver                       // a guess after the game has ended
    | TooManyGuesses(max: int, total: int)  // more guesses recorded than allowed
    | CodeChangeMidGame                     // a new code after the first guess
    | WrongLength(expected: nat)            // a code or guess of the wrong length
    | InvalidColor(color: char)             // a symbol outside the alphabet
    | SizeMismatch(size1: nat, size2: nat)  // positional comparison of unequal lengths

  /** A code or guess is valid when it has the board's length and every symbol
      is one of the board's colours. */
  predicate IsValidCode(colors: seq<char>, codeLength: nat, code: seq<char>) {
    |code| == codeLength && forall i :: 0 <= i < |code| ==> code[i] in colors
  }

  /** One message per symbol outside the alphabet, in order. */
  function ColorDiagnostics(colors: seq<char>, code: seq<char>): seq<Diagnostic> {
    if |code| == 0 then []
    else
      ColorDiagnostics(colors, code[..|code| - 1])
      + (if code[|code| - 1] in colors then [] else [InvalidColor(code[|code| - 1])])
  }

  /** Everything the board reports about a code: a length message if the length
      is wrong, then one message per bad symbol. */
  function CodeDiagnostics(colors: seq<char>, codeLength: nat, code: seq<char>): seq<Diagnostic> {
    (if |code| != codeLength then [WrongLength(codeLength)] else []) + ColorDiagnostics(colors, code)
  }

  lemma {:induction false} NoColorDiagnosticsIffInAlphabet(colors: seq<char>, code: seq<char>)
    ensures ColorDiagnostics(colors, code) == [] <==> forall i :: 0 <= i < |code| ==> code[i] in colors
  {
    if |code| > 0 {
      var n := |code| - 1;
      NoColorDiagnosticsIffInAlphabet(colors, code[..n]);
      assert forall i :: 0 <= i < n ==> code[..n][i] == code[i];
    }
  }

  /** A code is valid exactly when the board has nothing to report about it. */
  lemma ValidIffNoDiagnostics(colors: seq<char>, codeLength: nat, code: seq<char>)
    ensures IsValidCode(colors, codeLength, code) <==> CodeDiagnostics(colors, codeLength, code) == []
  {
    NoColorDiagnosticsIffInAlphabet(colors, code);
  }

  class MastermindBoard {
    const colors: seq<char>
    const codeLength: nat
    const maxGuesses: nat
    var code: Option<seq<char>>
    var guesses: seq<seq<char>>
    var responses: seq<string>

    /** The history invariant: one response per guess, at most `maxGuesses`
        guesses, none before the code is set; every recorded guess is valid,
        upcased, and answered by the feedback rule against the code; and no
        guess but possibly the last one equals the code. */
    ghost predicate Valid()
      reads this
    {
      && |guesses| == |responses|
      && |guesses| <= maxGuesses
      && (code.Some? ==> IsValidCode(colors, codeLength, code.value))
      && (|guesses| > 0 ==> code.Some?)
      && (forall i :: 0 <= i < |guesses| ==>
            IsValidCode(colors, codeLength, guesses[i]) && Upcase(guesses[i]) == guesses[i])
      && (code.Some? ==> forall i :: 0 <= i < |guesses| ==>
            |guesses[i]| == |code.value| && responses[i] == Response(guesses[i], code.value))
      && (code.Some? ==> forall i :: 0 <= i < |guesses| - 1 ==> guesses[i] != code.value)
    }

    constructor (colors: seq<char>, codeLength: nat, maxGuesses: nat)
      ensures Valid()
      ensures this.colors == colors && this.codeLength == codeLength && this.maxGuesses == maxGuesses
      ensures code == None && guesses == [] && responses == []
    {
      this.colors := colors;
      this.codeLength := codeLength;
      this.maxGuesses := maxGuesses;
      code := None;
      guesses := [];
      responses := [];
    }

    /** The standard game: six colours, codes of length four, twelve guesses. */
    constructor Default()
      ensures Valid()
      ensures colors == "KWRGBY" && codeLength == 4 && maxGuesses == 12
      ensures code == None && guesses == [] && responses == []
    {
      colors := "KWRGBY";
      codeLength := 4;
      maxGuesses := 12;
      code := None;
      guesses := [];
      responses := [];
    }

    /** The codebreaker has guessed the code. */
    predicate Solved()
      reads this
    {
      code.Some? && code.value in guesses
    }

    /** The game ends when the code has been guessed or the budget is used up. */
    predicate GameOver()
      reads this
    {
      Solved() || |guesses| >= maxGuesses
    }

    /** On a consistent board the code is solved exactly when the latest
        guess is the code: no earlier guess can be. */
    lemma SolvedIffLastIsCode()
      requires Valid()
      ensures Solved() <==> |guesses| > 0 && guesses[|guesses| - 1] == code.value
    {
      if |guesses| > 0 && code.value in guesses {
        var n := |guesses| - 1;
        var i :| 0 <= i < |guesses| && guesses[i] == code.value;
        assert !(i < n);
      }
    }

    /** On a consistent board the game is over exactly when the budget is used
        up or the latest response is all `+`. */
    lemma GameOverIffAllPlus()
      requires Valid()
      ensures GameOver() <==>
        |guesses| == maxGuesses || (|responses| > 0 && responses[|responses| - 1] == Repeat('+', codeLength))
    {
      SolvedIffLastIsCode();
      assert |guesses| >= maxGuesses <==> |guesses| == maxGuesses;
      if |guesses| > 0 {
        var n := |guesses| - 1;
        var g, c := guesses[n], code.value;
        assert |g| == |c| == codeLength && responses[n] == Response(g, c);
        AllPlusIffEqual(g, c);
        assert Solved() <==> g == c;
        assert responses[n] == Repeat('+', codeLength) <==> g == c;
      } else {
        assert !Solved();
      }
    }

    /** The codemaker's points: one per guess, plus one bonus when the whole
        budget went by without the code being guessed. On a finished game that
        is the number of the winning guess, or `maxGuesses + 1`. */
    function Points(): (p: nat)
      reads this
      requires Valid()
      ensures Solved() ==> p == |guesses| && guesses[|guesses| - 1] == code.value
      ensures GameOver() && !Solved() ==> p == maxGuesses + 1
      ensures !GameOver() ==> p == |guesses| < maxGuesses
    {
      if |guesses| == maxGuesses && !Solved() then |guesses| + 1 else |guesses|
    }

    /** Sets the code, upcased, if no guess has been made yet and it is valid;
        returns whether it was stored. Before the first guess the code may be
        set any number of times. */
    method SetCode(newCode: string) returns (valid: bool, diagnostics: seq<Diagnostic>)
      requires Valid()
      modifies this`code
      ensures Valid()
      ensures old(|guesses|) > 0 ==> !valid && code == old(code) && diagnostics == [CodeChangeMidGame]
      ensures old(|guesses|) == 0 ==>
        && valid == IsValidCode(colors, codeLength, Upcase(newCode))
        && diagnostics == CodeDiagnostics(colors, codeLength, Upcase(newCode))
        && code == (if valid then Some(Upcase(newCode)) else old(code))
    {
      var upcased := Upcase(newCode);
      if |guesses| > 0 {
        return false, [CodeChangeMidGame];
      }
      valid, diagnostics := ValidCode(upcased);
      if valid {
        code := Some(upcased);
      }
    }

    /** Submits a guess. Nothing is recorded when the game is already over or
        the upcased guess is invalid; otherwise the guess and its response are
        appended to the history and the response is returned. The source fails
        on a valid guess before any code is set, which the second precondition
        excludes. */
    method MakeGuess(guess: string) returns (response: Option<string>, diagnostics: seq<Diagnostic>)
      requires Valid()
      requires code.Some? || GameOver() || !IsValidCode(colors, codeLength, Upcase(guess))
      modifies this`guesses, this`responses
      ensures Valid()
      ensures old(GameOver()) ==>
        && response == None && diagnostics == [GameAlreadyOver]
        && guesses == old(guesses) && responses == old(responses)
      ensures !old(GameOver()) && !IsValidCode(colors, codeLength, Upcase(guess)) ==>
        && response == None && diagnostics == CodeDiagnostics(colors, codeLength, Upcase(guess))
        && guesses == old(guesses) && responses == old(responses)
      ensures !old(GameOver()) && IsValidCode(colors, codeLength, Upcase(guess)) ==>
        && response == Some(Response(Upcase(guess), code.value))
        && guesses == old(guesses) + [Upcase(guess)]
        && responses == old(responses) + [response.value]
        && diagnostics == []
    {
      if GameOver() {
        return None, [GameAlreadyOver];
      }
      var upcased := Upcase(guess);
      var valid;
      valid, diagnostics := ValidCode(upcased);
      if !valid {
        return None, diagnostics;
      }
      var r := EvaluateGuess(upcased);
      UpcaseIdempotent(guess);
      guesses := guesses + [upcased];
      responses := responses + [r];
      if |guesses| > maxGuesses {
        diagnostics := diagnostics + [TooManyGuesses(maxGuesses, |guesses|)];
      }
      response := Some(r);
    }

    /** Counts the positions at which two lists agree; lists of different
        lengths are reported and count as no match at all. */
    method CountMatches(list1: seq<char>, list2: seq<char>) returns (matches: nat, diagnostics: seq<Diagnostic>)
      ensures |list1| != |list2| ==> matches == 0 && diagnostics == [SizeMismatch(|list1|, |list2|)]
      ensures |list1| == |list2| ==> matches == Exact(list1, list2) && matches <= |list1| && diagnostics == []
    {
      if |list1| != |list2| {
        return 0, [SizeMismatch(|list1|, |list2|)];
      }
      matches, diagnostics := 0, [];
      for i := 0 to |list1|
        invariant matches == Exact(list1[..i], list2[..i])
      {
        assert list1[..i + 1][..i] == list1[..i] && list2[..i + 1][..i] == list2[..i];
        if list1[i] == list2[i] {
          matches := matches + 1;
        }
      }
      assert list1[..|list1|] == list1 && list2[..|list2|] == list2;
    }

    /** Scores a guess against the code: a blank for each code symbol the guess
        does not share, a `-` for each shared symbol out of place and a `+` for
        each symbol in place, where shared symbols count with multiplicity. */
    method EvaluateGuess(guess: seq<char>) returns (response: string)
      requires Valid() && code.Some? && |guess| == codeLength
      ensures response == Response(guess, code.value)
      ensures |response| == codeLength
    {
      var secret := code.value;
      var totalPegs := 0;
      var uniqueCodeColors := Uniq(secret);
      for k := 0 to |uniqueCodeColors|
        invariant totalPegs == PegTotal(uniqueCodeColors[..k], guess, secret)
      {
        assert uniqueCodeColors[..k + 1][..k] == uniqueCodeColors[..k];
        var color := uniqueCodeColors[k];
        totalPegs := totalPegs + Min(multiset(guess)[color], multiset(secret)[color]);
      }
      assert uniqueCodeColors[..|uniqueCodeColors|] == uniqueCodeColors;
      TotalIsCommon(guess, secret);
      var redPegs, _ := CountMatches(guess, secret);
      ExactAtMostCommon(guess, secret);
      CommonAtMostLength(guess, secret);
      var whitePegs := totalPegs - redPegs;
      var blank := codeLength - totalPegs;
      response := Repeat(' ', blank) + Repeat('-', whitePegs) + Repeat('+', redPegs);
    }

    /** Checks a code or guess against the length and the alphabet, reporting
        the wrong length once and each symbol outside the alphabet. */
    method ValidCode(candidate: seq<char>) returns (valid: bool, diagnostics: seq<Diagnostic>)
      ensures valid == IsValidCode(colors, codeLength, candidate)
      ensures diagnostics == CodeDiagnostics(colors, codeLength, candidate)
      ensures valid <==> diagnostics == []
    {
      valid, diagnostics := true, [];
      if |candidate| != codeLength {
        diagnostics := [WrongLength(codeLength)];
        valid := false;
      }
      for i := 0 to |candidate|
        invariant valid <==> |candidate| == codeLength && forall j :: 0 <= j < i ==> candidate[j] in colors
        invariant diagnostics == (if |candidate| != codeLength then [WrongLength(codeLength)] else [])
                                 + ColorDiagnostics(colors, candidate[..i])
      {
        assert candidate[..i + 1][..i] == candidate[..i];
        if candidate[i] !in colors {
          diagnostics := diagnostics + [InvalidColor(candidate[i])];
          valid := false;
        }
      }
      assert candidate[..|candidate|] == candidate;
      ValidIffNoDiagnostics(colors, codeLength, candidate);
    }
  }
}
