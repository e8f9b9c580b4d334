/** The computer codebreaker. It starts from a pool holding every code of the
    right length over the alphabet, in a shuffled order, and on each turn pops
    candidates off the end of the pool until one would have received exactly
    the recorded responses to all past guesses. */
module Codebreaker {
  import opened Wrappers
  import opened Text
  import opened Pegs
  import opened Board

  function Pow(b: nat, e: nat): nat {
    if e == 0 then 1 else b * Pow(b, e - 1)
  }

  /** Every tail with `x` put in front. */
  function Extend(x: char, tails: seq<string>): seq<string> {
    seq(|tails|, i requires 0 <= i < |tails| => [x] + tails[i])
  }

  /** For each symbol in turn, every tail with that symbol in front. */
  function ExtendAll(xs: seq<char>, tails: seq<string>): seq<string> {
    if |xs| == 0 then [] else Extend(xs[0], tails) + ExtendAll(xs[1..], tails)
  }

  /** All sequences of `length` symbols over `colors`, with repetition, the
      first position varying slowest. There are `|colors|^length` of them. */
  function GenerateCombos(colors: seq<char>, length: nat): (r: seq<string>)
    ensures |r| == Pow(|colors|, length)
  {
    if length == 0 then [[]]
    else
      var tails := GenerateCombos(colors, length - 1);
      ExtendAllLength(colors, tails);
      ExtendAll(colors, tails)
  }

  lemma {:induction false} ExtendAllLength(xs: seq<char>, tails: seq<string>)
    ensures |ExtendAll(xs, tails)| == |xs| * |tails|
  {
    if |xs| > 0 {
      ExtendAllLength(xs[1..], tails);
      assert |xs| * |tails| == |tails| + (|xs| - 1) * |tails|;
    }
  }

  lemma {:induction false} ExtendAllMember(xs: seq<char>, tails: seq<string>, s: string)
    ensures s in ExtendAll(xs, tails) <==> |s| > 0 && s[0] in xs && s[1..] in tails
  {
    if |xs| > 0 {
      ExtendAllMember(xs[1..], tails, s);
      if s in Extend(xs[0], tails) {
        var i :| 0 <= i < |tails| && Extend(xs[0], tails)[i] == s;
        assert s[1..] == tails[i];
      }
      if |s| > 0 && s[0] == xs[0] && s[1..] in tails {
        var i :| 0 <= i < |tails| && tails[i] == s[1..];
        assert Extend(xs[0], tails)[i] == s;
      }
    }
  }

  /** The combinations are exactly the valid codes: every one has the right
      length and uses only the alphabet, and every such code is among them. */
  lemma {:induction false} CombosAreValidCodes(colors: seq<char>, length: nat, s: string)
    ensures s in GenerateCombos(colors, length) <==> IsValidCode(colors, length, s)
  {
    if length == 0 {
      assert s in GenerateCombos(colors, length) <==> s == [];
    } else {
      ExtendAllMember(colors, GenerateCombos(colors, length - 1), s);
      if |s| > 0 {
        CombosAreValidCodes(colors, length - 1, s[1..]);
        assert forall i :: 1 <= i < |s| ==> s[i] == s[1..][i - 1];
      }
    }
  }

  lemma DistinctConcat<T>(a: seq<T>, b: seq<T>)
    requires Distinct(a) && Distinct(b)
    requires forall x, y :: x in a && y in b ==> x != y
    ensures Distinct(a + b)
  {
    forall i, j | 0 <= i < j < |a + b|
      ensures (a + b)[i] != (a + b)[j]
    {
      if j < |a| {
      } else if i >= |a| {
        assert (a + b)[i] == b[i - |a|] && (a + b)[j] == b[j - |a|];
      } else {
        assert (a + b)[i] in a && (a + b)[j] in b;
      }
    }
  }

  lemma {:induction false} ExtendAllDistinct(xs: seq<char>, tails: seq<string>)
    requires Distinct(xs) && Distinct(tails)
    ensures Distinct(ExtendAll(xs, tails))
  {
    if |xs| > 0 {
      var front, rest := Extend(xs[0], tails), ExtendAll(xs[1..], tails);
      ExtendAllDistinct(xs[1..], tails);
      forall i, j | 0 <= i < j < |front|
        ensures front[i] != front[j]
      {
        assert front[i][1..] == tails[i] && front[j][1..] == tails[j];
      }
      forall x, y | x in front && y in rest
        ensures x != y
      {
        ExtendAllMember(xs[1..], tails, y);
        assert x[0] == xs[0];
        assert y[0] in xs[1..];
      }
      DistinctConcat(front, rest);
    }
  }

  /** With a duplicate-free alphabet no combination occurs twice. */
  lemma {:induction false} CombosDistinct(colors: seq<char>, length: nat)
    requires Distinct(colors)
    ensures Distinct(GenerateCombos(colors, length))
  {
    if length > 0 {
      CombosDistinct(colors, length - 1);
      ExtendAllDistinct(colors, GenerateCombos(colors, length - 1));
    }
  }

  /** Replaying past guess `g` on a board whose code is `code` records it and
      answers exactly `r`. */
  predicate ReplayMatches(colors: seq<char>, length: nat, code: string, g: seq<char>, r: string) {
    IsValidCode(colors, length, Upcase(g)) && |code| == length && Response(Upcase(g), code) == r
  }

  /** `code` is consistent with the history when a fresh board holding `code`,
      with a budget of as many guesses as the history has, answers every past
      guess with the recorded response. Such a board stops accepting guesses
      once the code itself has been guessed, so no past guess but the last may
      equal `code`. */
  predicate Consistent(colors: seq<char>, length: nat, code: string, pastGuesses: seq<seq<char>>, pastResponses: seq<string>)
    requires |pastGuesses| == |pastResponses|
  {
    && (forall i :: 0 <= i < |pastGuesses| ==> ReplayMatches(colors, length, code, pastGuesses[i], pastResponses[i]))
    && (forall j :: 0 <= j < |pastGuesses| - 1 ==> Upcase(pastGuesses[j]) != code)
  }

  /** Every past guess, scored against `code`, gives its recorded response. */
  predicate Rescores(code: string, pastGuesses: seq<seq<char>>, pastResponses: seq<string>)
    requires |pastGuesses| == |pastResponses|
  {
    forall i :: 0 <= i < |pastGuesses| ==>
      |pastGuesses[i]| == |code| && Response(pastGuesses[i], code) == pastResponses[i]
  }

  /** On a history of valid upcased guesses in which no response before the
      last is all `+`, consistency is plain re-scoring: every past guess scored
      against `code` gives its recorded response. */
  lemma RescoringIff(colors: seq<char>, length: nat, code: string, pastGuesses: seq<seq<char>>, pastResponses: seq<string>)
    requires |pastGuesses| == |pastResponses|
    requires IsValidCode(colors, length, code)
    requires forall i :: 0 <= i < |pastGuesses| ==>
      IsValidCode(colors, length, pastGuesses[i]) && Upcase(pastGuesses[i]) == pastGuesses[i]
    requires forall j :: 0 <= j < |pastGuesses| - 1 ==> pastResponses[j] != Repeat('+', length)
    ensures Consistent(colors, length, code, pastGuesses, pastResponses) <==> Rescores(code, pastGuesses, pastResponses)
  {
    if Rescores(code, pastGuesses, pastResponses) {
      forall j | 0 <= j < |pastGuesses| - 1
        ensures pastGuesses[j] != code
      {
        if pastGuesses[j] == code {
          ResponseToCode(code);
        }
      }
    }
  }

  /** The secret code of a board is consistent with the board's own history:
      the codebreaker never discards it. */
  lemma SecretConsistent(b: MastermindBoard)
    requires b.Valid() && b.code.Some?
    ensures Consistent(b.colors, b.codeLength, b.code.value, b.guesses, b.responses)
  {
  }

  /** On a board's history, a valid candidate is consistent exactly when
      re-scoring every past guess against it reproduces the recorded response. */
  lemma BoardHistoryRescoring(b: MastermindBoard, candidate: string)
    requires b.Valid() && b.code.Some?
    requires IsValidCode(b.colors, b.codeLength, candidate)
    ensures Consistent(b.colors, b.codeLength, candidate, b.guesses, b.responses) <==> Rescores(candidate, b.guesses, b.responses)
  {
    forall j | 0 <= j < |b.guesses| - 1
      ensures b.responses[j] != Repeat('+', b.codeLength)
    {
      AllPlusIffEqual(b.guesses[j], b.code.value);
    }
    RescoringIff(b.colors, b.codeLength, candidate, b.guesses, b.responses);
  }

  function UpcaseAll(gs: seq<seq<char>>): seq<seq<char>> {
    seq(|gs|, i requires 0 <= i < |gs| => Upcase(gs[i]))
  }

  /** Upcasing one more past guess appends its upcased form. */
  lemma UpcaseAllStep(gs: seq<seq<char>>, i: nat)
    requires i < |gs|
    ensures UpcaseAll(gs[..i + 1]) == UpcaseAll(gs[..i]) + [Upcase(gs[i])]
  {
    assert forall j :: 0 <= j < i ==> UpcaseAll(gs[..i])[j] == Upcase(gs[j]);
  }

  /** The code is among the upcased first `i` guesses exactly when one of
      those guesses upcases to it. */
  lemma SeenInUpcaseAll(gs: seq<seq<char>>, i: nat, code: string)
    requires i <= |gs|
    ensures code in UpcaseAll(gs[..i]) <==> exists j :: 0 <= j < i && Upcase(gs[j]) == code
  {
    assert forall j :: 0 <= j < i ==> UpcaseAll(gs[..i])[j] == Upcase(gs[j]);
  }

  /** What one replayed round on the scratch board tells: the board answers
      with the recorded response exactly when it was not over yet and the
      round replays correctly against the code. */
  lemma ReplayOutcome(colors: seq<char>, length: nat, code: string, g: seq<char>, r: string,
                      over: bool, response: Option<string>)
    requires |code| == length
    requires over ==> response == None
    requires !over && !IsValidCode(colors, length, Upcase(g)) ==> response == None
    requires !over && IsValidCode(colors, length, Upcase(g)) ==> response == Some(Response(Upcase(g), code))
    ensures response == Some(r) <==> !over && ReplayMatches(colors, length, code, g, r)
  {
  }

  /** Extending a consistent prefix of the history by one round keeps it
      consistent exactly when that round replays correctly and no earlier
      guess was the code. */
  lemma ConsistentStep(colors: seq<char>, length: nat, code: string,
                       pastGuesses: seq<seq<char>>, pastResponses: seq<string>, i: nat)
    requires |pastGuesses| == |pastResponses| && i < |pastGuesses|
    requires Consistent(colors, length, code, pastGuesses[..i], pastResponses[..i])
    ensures Consistent(colors, length, code, pastGuesses[..i + 1], pastResponses[..i + 1]) <==>
      && ReplayMatches(colors, length, code, pastGuesses[i], pastResponses[i])
      && forall j :: 0 <= j < i ==> Upcase(pastGuesses[j]) != code
  {
    var g, r := pastGuesses[..i + 1], pastResponses[..i + 1];
    assert g[i] == pastGuesses[i] && r[i] == pastResponses[i];
    assert forall j :: 0 <= j < i ==> g[j] == pastGuesses[j] && r[j] == pastResponses[j]
                                        && pastGuesses[..i][j] == pastGuesses[j] && pastResponses[..i][j] == pastResponses[j];
  }

  /** A history consistent with `code` has every prefix consistent with it. */
  lemma ConsistentPrefix(colors: seq<char>, length: nat, code: string,
                         pastGuesses: seq<seq<char>>, pastResponses: seq<string>, k: nat)
    requires |pastGuesses| == |pastResponses| && k <= |pastGuesses|
    ensures Consistent(colors, length, code, pastGuesses, pastResponses) ==>
      Consistent(colors, length, code, pastGuesses[..k], pastResponses[..k])
  {
    assert forall j :: 0 <= j < k ==> pastGuesses[..k][j] == pastGuesses[j] && pastResponses[..k][j] == pastResponses[j];
  }

  /** No candidate from position `k` on is consistent with the history. */
  ghost predicate NoneConsistentFrom(colors: seq<char>, length: nat, pool: seq<string>, k: nat,
                                     pastGuesses: seq<seq<char>>, pastResponses: seq<string>)
    requires |pastGuesses| == |pastResponses|
  {
    forall j :: k <= j < |pool| ==> !Consistent(colors, length, pool[j], pastGuesses, pastResponses)
  }

  /** Once the candidate at `k` is rejected as well, every candidate from `k`
      on is known to be inconsistent. */
  lemma RejectedSuffixGrows(colors: seq<char>, length: nat, pool: seq<string>, k: nat,
                            pastGuesses: seq<seq<char>>, pastResponses: seq<string>)
    requires |pastGuesses| == |pastResponses| && k < |pool|
    requires !Consistent(colors, length, pool[k], pastGuesses, pastResponses)
    requires NoneConsistentFrom(colors, length, pool, k + 1, pastGuesses, pastResponses)
    ensures NoneConsistentFrom(colors, length, pool, k, pastGuesses, pastResponses)
  {
  }

  /** When everything after position `k` is inconsistent, every consistent
      candidate other than the one at `k` lies before `k`. */
  lemma NothingConsistentLost(colors: seq<char>, length: nat, pool: seq<string>, k: nat,
                              pastGuesses: seq<seq<char>>, pastResponses: seq<string>)
    requires |pastGuesses| == |pastResponses| && k < |pool|
    requires NoneConsistentFrom(colors, length, pool, k + 1, pastGuesses, pastResponses)
    ensures forall j :: k < j < |pool| ==> !Consistent(colors, length, pool[j], pastGuesses, pastResponses)
    ensures forall c ::
      (c in pool && c != pool[k] && Consistent(colors, length, c, pastGuesses, pastResponses)) ==> c in pool[..k]
  {
    forall c | c in pool && c != pool[k] && Consistent(colors, length, c, pastGuesses, pastResponses)
      ensures c in pool[..k]
    {
      var j :| 0 <= j < |pool| && pool[j] == c;
      assert j < k && pool[..k][j] == c;
    }
  }

  lemma PrefixOfPrefix(pool: seq<string>, n: nat, k: nat)
    requires k <= n <= |pool|
    ensures pool[..n][..k] == pool[..k]
  {
  }

  /** Taking off the last candidate keeps every other one. */
  lemma LastPoppedKeepsRest(pool: seq<string>)
    requires |pool| > 0
    ensures forall c :: c in pool && c != pool[|pool| - 1] ==> c in pool[..|pool| - 1]
  {
    forall c | c in pool && c != pool[|pool| - 1]
      ensures c in pool[..|pool| - 1]
    {
      var j :| 0 <= j < |pool| && pool[j] == c;
      assert pool[..|pool| - 1][j] == c;
    }
  }

  class ComputerPlayer {
    const colors: seq<char>
    const codeLength: nat
    var possibilities: seq<string>

    /** The alphabet is fixed by upcasing (so a candidate set as a code is
        stored as is) and every candidate left is a valid code. */
    ghost predicate Valid()
      reads this
    {
      && (forall x :: x in colors ==> UpcaseChar(x) == x)
      && (forall p :: p in possibilities ==> IsValidCode(colors, codeLength, p))
    }

    /** The pool is every combination, in the order `shuffled` gives them. */
    constructor (colors: seq<char>, codeLength: nat, shuffled: seq<string>)
      requires forall x :: x in colors ==> UpcaseChar(x) == x
      requires multiset(shuffled) == multiset(GenerateCombos(colors, codeLength))
      ensures Valid()
      ensures this.colors == colors && this.codeLength == codeLength && possibilities == shuffled
    {
      this.colors := colors;
      this.codeLength := codeLength;
      possibilities := shuffled;
      forall p | p in shuffled
        ensures IsValidCode(colors, codeLength, p)
      {
        assert p in multiset(GenerateCombos(colors, codeLength));
        CombosAreValidCodes(colors, codeLength, p);
      }
    }

    /** Takes the last candidate off the pool; nothing when it is empty. */
    method ChooseCode() returns (candidate: Option<string>)
      requires Valid()
      modifies this`possibilities
      ensures Valid()
      ensures old(possibilities) == [] ==> candidate == None && possibilities == []
      ensures old(possibilities) != [] ==>
        && candidate == Some(old(possibilities)[|old(possibilities)| - 1])
        && possibilities == old(possibilities)[..|old(possibilities)| - 1]
    {
      if possibilities == [] {
        return None;
      }
      candidate := Some(possibilities[|possibilities| - 1]);
      possibilities := possibilities[..|possibilities| - 1];
    }

    /** Replays every past guess on a scratch board whose code is `guess` and
        accepts `guess` when each replay gives the recorded response. */
    method GoodGuess(guess: string, pastGuesses: seq<seq<char>>, pastResponses: seq<string>) returns (good: bool)
      requires |pastGuesses| == |pastResponses|
      requires IsValidCode(colors, codeLength, Upcase(guess))
      ensures good == Consistent(colors, codeLength, Upcase(guess), pastGuesses, pastResponses)
    {
      var testBoard := new MastermindBoard(colors, codeLength, |pastGuesses|);
      var _, _ := testBoard.SetCode(guess);
      ghost var secret := Upcase(guess);
      for i := 0 to |pastGuesses|
        invariant testBoard.Valid()
        invariant testBoard.colors == colors && testBoard.codeLength == codeLength
        invariant testBoard.maxGuesses == |pastGuesses|
        invariant testBoard.code == Some(secret)
        invariant testBoard.guesses == UpcaseAll(pastGuesses[..i])
        invariant Consistent(colors, codeLength, secret, pastGuesses[..i], pastResponses[..i])
      {
        var pastGuess := pastGuesses[i];
        var pastResponse := pastResponses[i];
        ghost var unseen := forall j :: 0 <= j < i ==> Upcase(pastGuesses[j]) != secret;
        SeenInUpcaseAll(pastGuesses, i, secret);
        ghost var over := testBoard.GameOver();
        assert over <==> !unseen;
        var response, _ := testBoard.MakeGuess(pastGuess);
        ReplayOutcome(colors, codeLength, secret, pastGuess, pastResponse, over, response);
        ConsistentStep(colors, codeLength, secret, pastGuesses, pastResponses, i);
        if response != Some(pastResponse) {
          ConsistentPrefix(colors, codeLength, secret, pastGuesses, pastResponses, i + 1);
          return false;
        }
        UpcaseAllStep(pastGuesses, i);
      }
      assert pastGuesses[..|pastGuesses|] == pastGuesses;
      assert pastResponses[..|pastResponses|] == pastResponses;
      return true;
    }

    /** Picks the next guess. With no history it is the last candidate; after
        that candidates are popped until one is consistent with every past
        guess and response. The source fails if the pool runs dry; the second
        precondition, which holds while the true code is still in the pool,
        excludes that. */
    method MakeGuess(pastGuesses: seq<seq<char>>, pastResponses: seq<string>) returns (guess: Option<string>)
      requires Valid() && |pastGuesses| == |pastResponses|
      requires |pastGuesses| > 0 ==>
        exists i :: 0 <= i < |possibilities| && Consistent(colors, codeLength, possibilities[i], pastGuesses, pastResponses)
      modifies this`possibilities
      ensures Valid()
      ensures guess.None? <==> old(possibilities) == []
      ensures guess.None? ==> possibilities == old(possibilities)
      ensures guess.Some? ==>
        && |possibilities| < |old(possibilities)|
        && possibilities == old(possibilities)[..|possibilities|]
        && guess.value == old(possibilities)[|possibilities|]
      ensures |pastGuesses| > 0 ==>
        && guess.Some?
        && Consistent(colors, codeLength, guess.value, pastGuesses, pastResponses)
        && forall j :: |possibilities| < j < |old(possibilities)| ==>
             !Consistent(colors, codeLength, old(possibilities)[j], pastGuesses, pastResponses)
      ensures forall c ::
        (c in old(possibilities) && Some(c) != guess && Consistent(colors, codeLength, c, pastGuesses, pastResponses))
        ==> c in possibilities
    {
      if |pastGuesses| == 0 {
        if possibilities != [] {
          LastPoppedKeepsRest(possibilities);
        }
        guess := ChooseCode();
      } else {
        ghost var pool := possibilities;
        var candidate := PopConsistent(pastGuesses, pastResponses);
        NothingConsistentLost(colors, codeLength, pool, |possibilities|, pastGuesses, pastResponses);
        guess := Some(candidate);
      }
    }

    /** The `until good` loop of a guess after the first: pops candidates off
        the end of the pool until the scratch-board replay accepts one. */
    method PopConsistent(pastGuesses: seq<seq<char>>, pastResponses: seq<string>) returns (guess: string)
      requires Valid() && |pastGuesses| == |pastResponses|
      requires exists i :: 0 <= i < |possibilities| && Consistent(colors, codeLength, possibilities[i], pastGuesses, pastResponses)
      modifies this`possibilities
      ensures Valid()
      ensures |possibilities| < |old(possibilities)|
      ensures possibilities == old(possibilities)[..|possibilities|]
      ensures guess == old(possibilities)[|possibilities|]
      ensures Consistent(colors, codeLength, guess, pastGuesses, pastResponses)
      ensures NoneConsistentFrom(colors, codeLength, old(possibilities), |possibilities| + 1, pastGuesses, pastResponses)
    {
      ghost var pool := possibilities;
      ghost var w :| 0 <= w < |pool| && Consistent(colors, codeLength, pool[w], pastGuesses, pastResponses);
      while true
        invariant Valid()
        invariant |possibilities| <= |pool| && possibilities == pool[..|possibilities|]
        invariant NoneConsistentFrom(colors, codeLength, pool, |possibilities|, pastGuesses, pastResponses)
        invariant w < |possibilities|
        decreases |possibilities|
      {
        var good;
        good, guess := TryNext(pastGuesses, pastResponses, pool, w);
        if good {
          return;
        }
      }
    }

    /** One round of the search: pop the last candidate and replay the history
        against it. Every candidate of `pool` past the current pool has already
        failed, and `w` is a consistent candidate still in the pool; when this
        one fails too, `w` is still left. */
    method TryNext(pastGuesses: seq<seq<char>>, pastResponses: seq<string>, ghost pool: seq<string>, ghost w: nat)
      returns (good: bool, guess: string)
      requires Valid() && |pastGuesses| == |pastResponses|
      requires |possibilities| <= |pool| && possibilities == pool[..|possibilities|]
      requires NoneConsistentFrom(colors, codeLength, pool, |possibilities|, pastGuesses, pastResponses)
      requires w < |possibilities| && Consistent(colors, codeLength, pool[w], pastGuesses, pastResponses)
      modifies this`possibilities
      ensures Valid()
      ensures |possibilities| == |old(possibilities)| - 1 && possibilities == pool[..|possibilities|]
      ensures guess == pool[|possibilities|]
      ensures good <==> Consistent(colors, codeLength, guess, pastGuesses, pastResponses)
      ensures good ==> NoneConsistentFrom(colors, codeLength, pool, |possibilities| + 1, pastGuesses, pastResponses)
      ensures !good ==> NoneConsistentFrom(colors, codeLength, pool, |possibilities|, pastGuesses, pastResponses)
      ensures !good ==> w < |possibilities|
    {
      ghost var before := possibilities;
      ghost var k := |before| - 1;
      var popped := ChooseCode();
      assert popped == Some(before[k]) && possibilities == before[..k];
      PrefixOfPrefix(pool, |before|, k);
      guess := popped.value;
      assert before[k] == pool[k];
      assert guess in before;
      UpcaseFixed(guess);
      good := GoodGuess(guess, pastGuesses, pastResponses);
      if !good {
        RejectedSuffixGrows(colors, codeLength, pool, k, pastGuesses, pastResponses);
        assert w != k;
      }
    }
  }
}
