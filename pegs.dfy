/** The feedback rule of the board. A guess is scored against the code by two
    counts: `Exact`, the positions where both hold the same colour (the `+`
    pegs), and `Common`, the colours the two share counted with multiplicity
    (multiset intersection). The colours shared but not in place are the `-`
    pegs. The board renders the score as a string of the code's length: blanks,
    then `-`, then `+`. */
module Pegs {

  /** No element occurs twice. */
  predicate Distinct<T(==)>(u: seq<T>) {
    forall i, j :: 0 <= i < j < |u| ==> u[i] != u[j]
  }

  function Min(a: nat, b: nat): nat {
    if a <= b then a else b
  }

  /** `n` copies of one character (Ruby's `ch * n`). */
  function Repeat(ch: char, n: nat): string {
    seq(n, _ => ch)
  }

  /** The symbols of `s` in order of first occurrence, each once (Ruby's `uniq`). */
  function Uniq(s: seq<char>): (u: seq<char>)
    ensures Distinct(u)
    ensures forall x :: x in u <==> x in s
  {
    if |s| == 0 then []
    else
      assert s == s[..|s| - 1] + [s[|s| - 1]];
      var p := Uniq(s[..|s| - 1]);
      if s[|s| - 1] in p then p else p + [s[|s| - 1]]
  }

  /** Number of positions at which guess and code hold the same symbol. */
  function Exact(g: seq<char>, c: seq<char>): (n: nat)
    requires |g| == |c|
    ensures n <= |g|
  {
    if |g| == 0 then 0
    else Exact(g[..|g| - 1], c[..|c| - 1]) + (if g[|g| - 1] == c[|c| - 1] then 1 else 0)
  }

  /** The symbols standing at those matching positions, as a multiset. */
  function Matched(g: seq<char>, c: seq<char>): multiset<char>
    requires |g| == |c|
  {
    if |g| == 0 then multiset{}
    else Matched(g[..|g| - 1], c[..|c| - 1]) + (if g[|g| - 1] == c[|c| - 1] then multiset{g[|g| - 1]} else multiset{})
  }

  /** Number of symbols the two sequences share, counted with multiplicity. */
  function Common(g: seq<char>, c: seq<char>): nat {
    |multiset(g) * multiset(c)|
  }

  /** The response string for guess `g` against code `c`: one blank per code
      symbol not matched at all, one `-` per symbol matched only by colour, one
      `+` per symbol matched in place. */
  function Response(g: seq<char>, c: seq<char>): (r: string)
    requires |g| == |c|
    ensures |r| == |c|
  {
    ExactAtMostCommon(g, c);
    CommonAtMostLength(g, c);
    Pegboard(|c| - Common(g, c), Common(g, c) - Exact(g, c), Exact(g, c))
  }

  /** The rendered score: blanks, then `-`, then `+`. */
  function Pegboard(blanks: nat, dashes: nat, pluses: nat): string {
    Repeat(' ', blanks) + Repeat('-', dashes) + Repeat('+', pluses)
  }

  /** The quantity the board accumulates: over the listed colours, the sum of
      the smaller of the colour's occurrence counts in `g` and in `c`. */
  function PegTotal(colors: seq<char>, g: seq<char>, c: seq<char>): nat {
    if |colors| == 0 then 0
    else
      var x := colors[|colors| - 1];
      PegTotal(colors[..|colors| - 1], g, c) + Min(multiset(g)[x], multiset(c)[x])
  }

  /** Sum of the multiplicities in `m` of the listed symbols. */
  function SumOver(u: seq<char>, m: multiset<char>): nat {
    if |u| == 0 then 0 else SumOver(u[..|u| - 1], m) + m[u[|u| - 1]]
  }

  lemma SubMultisetCard(a: multiset<char>, b: multiset<char>)
    requires a <= b
    ensures |a| <= |b|
  {
    assert b == a + (b - a);
  }

  /** The shared symbols are no more than either sequence holds. */
  lemma CommonAtMostLength(g: seq<char>, c: seq<char>)
    ensures Common(g, c) <= |c| && Common(g, c) <= |g|
  {
    SubMultisetCard(multiset(g) * multiset(c), multiset(c));
    SubMultisetCard(multiset(g) * multiset(c), multiset(g));
  }

  /** The in-place matches are `Exact` many symbols, and they occur in both
      sequences. */
  lemma {:induction false} MatchedIsExact(g: seq<char>, c: seq<char>)
    requires |g| == |c|
    ensures |Matched(g, c)| == Exact(g, c)
    ensures Matched(g, c) <= multiset(g) && Matched(g, c) <= multiset(c)
  {
    if |g| > 0 {
      var n := |g| - 1;
      MatchedIsExact(g[..n], c[..n]);
      assert g == g[..n] + [g[n]];
      assert c == c[..n] + [c[n]];
      assert multiset(g) == multiset(g[..n]) + multiset{g[n]};
      assert multiset(c) == multiset(c[..n]) + multiset{c[n]};
      var mp := Matched(g[..n], c[..n]);
      if g[n] == c[n] {
        assert Matched(g, c) == mp + multiset{g[n]};
      } else {
        assert Matched(g, c) == mp;
      }
    }
  }

  /** Every exact match is also a colour match, so the `-` count
      `Common - Exact` is never negative. */
  lemma ExactAtMostCommon(g: seq<char>, c: seq<char>)
    requires |g| == |c|
    ensures Exact(g, c) <= Common(g, c)
  {
    MatchedIsExact(g, c);
    SubMultisetCard(Matched(g, c), multiset(g) * multiset(c));
  }

  /** All positions match exactly when the guess is the code. */
  lemma {:induction false} ExactAllIffEqual(g: seq<char>, c: seq<char>)
    requires |g| == |c|
    ensures Exact(g, c) == |g| <==> g == c
  {
    if |g| > 0 {
      var n := |g| - 1;
      ExactAllIffEqual(g[..n], c[..n]);
      assert g == g[..n] + [g[n]];
      assert c == c[..n] + [c[n]];
      if g == c {
        assert g[..n] == c[..n];
      }
    }
  }

  /** Exact matches do not depend on which sequence is called the code. */
  lemma {:induction false} ExactSymmetric(g: seq<char>, c: seq<char>)
    requires |g| == |c|
    ensures Exact(g, c) == Exact(c, g)
  {
    if |g| > 0 {
      ExactSymmetric(g[..|g| - 1], c[..|c| - 1]);
    }
  }

  lemma {:induction false} PegTotalIsSumOver(u: seq<char>, g: seq<char>, c: seq<char>)
    ensures PegTotal(u, g, c) == SumOver(u, multiset(g) * multiset(c))
  {
    if |u| > 0 {
      PegTotalIsSumOver(u[..|u| - 1], g, c);
    }
  }

  lemma {:induction false} SumOverAgree(u: seq<char>, m: multiset<char>, n: multiset<char>)
    requires forall x :: x in u ==> m[x] == n[x]
    ensures SumOver(u, m) == SumOver(u, n)
  {
    if |u| > 0 {
      SumOverAgree(u[..|u| - 1], m, n);
    }
  }

  /** Summing the multiplicities over a duplicate-free list that covers every
      member of a multiset gives its size. */
  lemma {:induction false} SumOverIsCard(u: seq<char>, m: multiset<char>)
    requires Distinct(u)
    requires forall x :: x in m ==> x in u
    ensures SumOver(u, m) == |m|
  {
    if |u| == 0 {
      assert m == multiset{};
    } else {
      var n := |u| - 1;
      var x, rest := u[n], u[..n];
      assert u == rest + [x];
      var m' := m[x := 0];
      assert |m| == |m'| + m[x];
      forall y | y in m'
        ensures y in rest
      {
        assert y in u && y != x;
      }
      SumOverIsCard(rest, m');
      forall y | y in rest
        ensures m[y] == m'[y]
      {
        assert y != x;
      }
      SumOverAgree(rest, m, m');
    }
  }

  /** The board's colour-by-colour total over the code's distinct colours is
      exactly the size of the multiset intersection of guess and code. */
  lemma TotalIsCommon(g: seq<char>, c: seq<char>)
    ensures PegTotal(Uniq(c), g, c) == Common(g, c)
  {
    PegTotalIsSumOver(Uniq(c), g, c);
    SumOverIsCard(Uniq(c), multiset(g) * multiset(c));
  }

  lemma RepeatCount(ch: char, n: nat, y: char)
    ensures multiset(Repeat(ch, n))[y] == if y == ch then n else 0
  {
    if n > 0 {
      assert Repeat(ch, n) == Repeat(ch, n - 1) + [ch];
      RepeatCount(ch, n - 1, y);
    }
  }

  /** A rendered score holds `p` blanks, `q` dashes and `r` pluses. */
  lemma PegboardCounts(p: nat, q: nat, r: nat)
    ensures multiset(Pegboard(p, q, r))[' '] == p
    ensures multiset(Pegboard(p, q, r))['-'] == q
    ensures multiset(Pegboard(p, q, r))['+'] == r
  {
    var m := multiset(Repeat(' ', p)) + multiset(Repeat('-', q)) + multiset(Repeat('+', r));
    assert multiset(Pegboard(p, q, r)) == m;
    RepeatCount(' ', p, ' ');
    RepeatCount('-', q, ' ');
    RepeatCount('+', r, ' ');
    RepeatCount(' ', p, '-');
    RepeatCount('-', q, '-');
    RepeatCount('+', r, '-');
    RepeatCount(' ', p, '+');
    RepeatCount('-', q, '+');
    RepeatCount('+', r, '+');
  }

  /** Position by position, a rendered score is blanks, then dashes, then pluses. */
  lemma PegboardLayout(p: nat, q: nat, r: nat)
    ensures |Pegboard(p, q, r)| == p + q + r
    ensures forall i :: 0 <= i < p + q + r ==>
      Pegboard(p, q, r)[i] == if i < p then ' ' else if i < p + q then '-' else '+'
  {
  }

  /** The response has the code's length and is blanks, then `-`, then `+`. */
  lemma ResponseLayout(g: seq<char>, c: seq<char>)
    requires |g| == |c|
    ensures |Response(g, c)| == |c|
    ensures forall i :: 0 <= i < |c| ==>
      Response(g, c)[i] == if i < |c| - Common(g, c) then ' ' else if i < |c| - Exact(g, c) then '-' else '+'
  {
    ExactAtMostCommon(g, c);
    CommonAtMostLength(g, c);
    var e, t := Exact(g, c), Common(g, c);
    var p, q := |c| - t, t - e;
    assert Response(g, c) == Pegboard(p, q, e);
    PegboardLayout(p, q, e);
    assert p + q == |c| - e;
  }

  /** The response holds `Exact` pluses, `Common - Exact` dashes and
      `|c| - Common` blanks. */
  lemma ResponseCounts(g: seq<char>, c: seq<char>)
    requires |g| == |c|
    ensures Exact(g, c) <= Common(g, c) <= |c|
    ensures multiset(Response(g, c))['+'] == Exact(g, c)
    ensures multiset(Response(g, c))['-'] == Common(g, c) - Exact(g, c)
    ensures multiset(Response(g, c))[' '] == |c| - Common(g, c)
  {
    ExactAtMostCommon(g, c);
    CommonAtMostLength(g, c);
    PegboardCounts(|c| - Common(g, c), Common(g, c) - Exact(g, c), Exact(g, c));
  }

  /** The response has the code's length; it is blanks, then `-`, then `+`,
      and it holds exactly `Exact` pluses, `Common - Exact` dashes and
      `|c| - Common` blanks. */
  lemma ResponseShape(g: seq<char>, c: seq<char>)
    requires |g| == |c|
    ensures var r := Response(g, c);
      && |r| == |c|
      && (forall i :: 0 <= i < |r| ==>
            r[i] == if i < |c| - Common(g, c) then ' ' else if i < |c| - Exact(g, c) then '-' else '+')
      && multiset(r)['+'] == Exact(g, c)
      && multiset(r)['-'] == Common(g, c) - Exact(g, c)
      && multiset(r)[' '] == |c| - Common(g, c)
  {
    ResponseLayout(g, c);
    ResponseCounts(g, c);
  }

  /** A guess identical to the code is answered with all `+`. */
  lemma ResponseToCode(c: seq<char>)
    ensures Response(c, c) == Repeat('+', |c|)
  {
    ExactAllIffEqual(c, c);
    assert multiset(c) * multiset(c) == multiset(c);
  }

  /** All `+` is the answer exactly when the guess is the code. */
  lemma AllPlusIffEqual(g: seq<char>, c: seq<char>)
    requires |g| == |c|
    ensures Response(g, c) == Repeat('+', |c|) <==> g == c
  {
    if g == c {
      ResponseToCode(c);
    } else if Response(g, c) == Repeat('+', |c|) {
      ResponseShape(g, c);
      ExactAllIffEqual(g, c);
    }
  }

  /** A guess that shares no colour with the code is answered with all blanks. */
  lemma NoSharedColor(g: seq<char>, c: seq<char>)
    requires |g| == |c|
    requires forall x :: x in g ==> x !in c
    ensures Response(g, c) == Repeat(' ', |c|)
  {
    forall x
      ensures (multiset(g) * multiset(c))[x] == 0
    {
      if x in g {
        assert x !in multiset(c);
      } else {
        assert x !in multiset(g);
      }
    }
    assert multiset(g) * multiset(c) == multiset{};
    ExactAtMostCommon(g, c);
  }

  /** Scoring is symmetric: swapping guess and code gives the same response. */
  lemma ResponseSymmetric(g: seq<char>, c: seq<char>)
    requires |g| == |c|
    ensures Response(g, c) == Response(c, g)
  {
    ExactSymmetric(g, c);
    assert multiset(g) * multiset(c) == multiset(c) * multiset(g);
  }

  /** No position matches: no `+` peg. */
  lemma {:induction false} ExactZero(g: seq<char>, c: seq<char>)
    requires |g| == |c|
    requires forall i :: 0 <= i < |g| ==> g[i] != c[i]
    ensures Exact(g, c) == 0
  {
    if |g| > 0 {
      ExactZero(g[..|g| - 1], c[..|c| - 1]);
    }
  }

  /** The response is determined by the two counts. */
  lemma ResponseOf(g: seq<char>, c: seq<char>, common: nat, exact: nat)
    requires |g| == |c| && Common(g, c) == common && Exact(g, c) == exact
    ensures exact <= common <= |c|
    ensures Response(g, c) == Pegboard(|c| - common, common - exact, exact)
  {
    ExactAtMostCommon(g, c);
    CommonAtMostLength(g, c);
  }

  lemma ExampleOneOutOfPlaceCommon()
    ensures Common("YYBB", "GBRK") == 1
  {
    assert multiset("YYBB") * multiset("GBRK") == multiset{'B'};
  }

  /** Code GBRK against guess YYBB: only the B is shared, and not in place. */
  lemma ExampleOneOutOfPlace()
    ensures Response("YYBB", "GBRK") == "   -"
  {
    ExampleOneOutOfPlaceCommon();
    ExactZero("YYBB", "GBRK");
    ResponseOf("YYBB", "GBRK", 1, 0);
    assert Pegboard(3, 1, 0) == "   -";
  }

  lemma ExampleInPlaceAndOutCommon()
    ensures Common("KRRY", "GBRK") == 2
  {
    assert multiset("KRRY") == multiset{'K', 'R', 'R', 'Y'};
    assert multiset("GBRK") == multiset{'G', 'B', 'R', 'K'};
    assert multiset("KRRY") * multiset("GBRK") == multiset{'K', 'R'};
  }

  lemma ExampleInPlaceAndOutExact()
    ensures Exact("KRRY", "GBRK") == 1
  {
    assert "KRRY"[..3] == "KRR" && "GBRK"[..3] == "GBR";
    assert "KRR"[..2] == "KR" && "GBR"[..2] == "GB";
    assert "KR"[..1] == "K" && "GB"[..1] == "G";
  }

  /** Code GBRK against guess KRRY: the R in third place matches in place,
      K matches out of place, and the second R matches nothing because the code
      holds a single R. */
  lemma ExampleInPlaceAndOut()
    ensures Response("KRRY", "GBRK") == "  -+"
  {
    ExampleInPlaceAndOutCommon();
    ExampleInPlaceAndOutExact();
    ResponseOf("KRRY", "GBRK", 2, 1);
    assert Pegboard(2, 1, 1) == "  -+";
  }

  lemma ExampleRepeatedColoursCommon()
    ensures Common("ABAB", "AABB") == 4
  {
    assert multiset("ABAB") * multiset("AABB") == multiset("AABB");
  }

  lemma ExampleRepeatedColoursExact()
    ensures Exact("ABAB", "AABB") == 2
  {
    assert "ABAB"[..3] == "ABA" && "AABB"[..3] == "AAB";
    assert "ABA"[..2] == "AB" && "AAB"[..2] == "AA";
    assert "AB"[..1] == "A" && "AA"[..1] == "A";
    assert "A"[..0] == [] && "A"[..0] == [];
  }

  /** Code AABB against guess ABAB: two in place, two out of place. */
  lemma ExampleRepeatedColours()
    ensures Response("ABAB", "AABB") == "--++"
  {
    ExampleRepeatedColoursCommon();
    ExampleRepeatedColoursExact();
    ResponseOf("ABAB", "AABB", 4, 2);
    assert Pegboard(0, 2, 2) == "--++";
  }

  /** `p` lists each of the positions `0 .. n-1` exactly once. */
  predicate IsPermutation(p: seq<int>, n: nat) {
    && |p| == n
    && (forall i :: 0 <= i < n ==> 0 <= p[i] < n)
    && Distinct(p)
    && (forall j :: 0 <= j < n ==> j in p)
  }

  /** `s` rearranged by `p`: position `i` takes the symbol at position `p[i]`. */
  function Permute(s: seq<char>, p: seq<int>): (t: seq<char>)
    requires IsPermutation(p, |s|)
    ensures |t| == |s|
  {
    seq(|p|, i requires 0 <= i < |p| => s[p[i]])
  }

  /** The positions of `s` holding `x`. */
  function Positions(s: seq<char>, x: char): set<int> {
    set i | 0 <= i < |s| && s[i] == x
  }

  /** The positions at which `g` and `c` hold the same symbol. */
  function MatchPositions(g: seq<char>, c: seq<char>): set<int>
    requires |g| == |c|
  {
    set i | 0 <= i < |g| && g[i] == c[i]
  }

  lemma {:induction false} CountIsPositions(s: seq<char>, x: char)
    ensures multiset(s)[x] == |Positions(s, x)|
  {
    if |s| > 0 {
      var n := |s| - 1;
      CountIsPositions(s[..n], x);
      assert s == s[..n] + [s[n]];
      assert multiset(s) == multiset(s[..n]) + multiset{s[n]};
      assert n !in Positions(s[..n], x);
      assert Positions(s, x) == Positions(s[..n], x) + (if s[n] == x then {n} else {});
    }
  }

  lemma {:induction false} ExactIsMatchPositions(g: seq<char>, c: seq<char>)
    requires |g| == |c|
    ensures Exact(g, c) == |MatchPositions(g, c)|
  {
    if |g| > 0 {
      var n := |g| - 1;
      ExactIsMatchPositions(g[..n], c[..n]);
      assert n !in MatchPositions(g[..n], c[..n]);
      assert MatchPositions(g, c) == MatchPositions(g[..n], c[..n]) + (if g[n] == c[n] then {n} else {});
    }
  }

  /** The positions `p` sends the members of `a` to. */
  function Image(a: set<int>, p: seq<int>): set<int> {
    set i | i in a && 0 <= i < |p| :: p[i]
  }

  /** `p` sends distinct members of `a` to distinct positions. */
  predicate InjectiveOn(a: set<int>, p: seq<int>) {
    && (forall i :: i in a ==> 0 <= i < |p|)
    && (forall i, j :: i in a && j in a && i != j ==> p[i] != p[j])
  }

  /** A map that is one-to-one on `a` gives an image of the same size
      (by induction on a bound `n` of the members of `a`). */
  lemma {:induction false} ImageCard(a: set<int>, p: seq<int>, n: nat)
    requires InjectiveOn(a, p)
    requires forall i :: i in a ==> i < n
    ensures |Image(a, p)| == |a|
  {
    if n == 0 {
      assert a == {};
    } else {
      var x := n - 1;
      var rest := a - {x};
      assert InjectiveOn(rest, p);
      ImageCard(rest, p, x);
      if x in a {
        assert Image(a, p) == Image(rest, p) + {p[x]};
        assert p[x] !in Image(rest, p);
      } else {
        assert rest == a;
      }
    }
  }

  /** Two sets of positions that a permutation carries onto each other have
      the same size. */
  lemma Reindex(p: seq<int>, n: nat, a: set<int>, b: set<int>)
    requires IsPermutation(p, n)
    requires forall i :: i in a ==> 0 <= i < n
    requires forall j :: j in b ==> 0 <= j < n
    requires forall i :: 0 <= i < n ==> (i in a <==> p[i] in b)
    ensures |a| == |b|
  {
    forall j | j in b
      ensures j in Image(a, p)
    {
      assert j in p;
      var i :| 0 <= i < |p| && p[i] == j;
    }
    assert Image(a, p) == b;
    forall i, j | i in a && j in a && i != j
      ensures p[i] != p[j]
    {
      if i < j {
        assert p[i] != p[j];
      } else {
        assert p[j] != p[i];
      }
    }
    ImageCard(a, p, n);
  }

  /** Rearranging a sequence keeps its symbols with their multiplicities. */
  lemma PermuteMultiset(s: seq<char>, p: seq<int>)
    requires IsPermutation(p, |s|)
    ensures multiset(Permute(s, p)) == multiset(s)
  {
    var t := Permute(s, p);
    forall x
      ensures multiset(t)[x] == multiset(s)[x]
    {
      CountIsPositions(t, x);
      CountIsPositions(s, x);
      Reindex(p, |s|, Positions(t, x), Positions(s, x));
    }
  }

  /** Rearranging guess and code the same way keeps the number of exact
      matches. */
  lemma PermuteExact(g: seq<char>, c: seq<char>, p: seq<int>)
    requires |g| == |c| && IsPermutation(p, |c|)
    ensures Exact(Permute(g, p), Permute(c, p)) == Exact(g, c)
  {
    var g', c' := Permute(g, p), Permute(c, p);
    ExactIsMatchPositions(g', c');
    ExactIsMatchPositions(g, c);
    Reindex(p, |c|, MatchPositions(g', c'), MatchPositions(g, c));
  }

  /** The response does not depend on the order of the positions: rearranging
      guess and code by the same permutation gives the same response. */
  lemma ResponsePermutationInvariant(g: seq<char>, c: seq<char>, p: seq<int>)
    requires |g| == |c| && IsPermutation(p, |c|)
    ensures Response(Permute(g, p), Permute(c, p)) == Response(g, c)
  {
    PermuteMultiset(g, p);
    PermuteMultiset(c, p);
    PermuteExact(g, c, p);
  }
}
