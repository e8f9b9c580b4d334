/** The configuration helper that bounds the code length by the size of the
    alphabet, so that the codebreaker's pool of `colors^length` candidates
    stays small enough to build and search in a few seconds. */
module Settings {
  import opened Codebreaker

  /** Longest code length offered for an alphabet of `n` colours. */
  function MaxLengthFor(n: int): (max: nat)
    ensures 4 <= max <= 20
  {
    if n == 2 then 20
    else if n == 3 then 13
    else if n == 4 then 10
    else if n == 5 then 9
    else if n == 6 then 8
    else if n == 7 then 7
    else if n == 8 then 7
    else if 9 <= n <= 12 then 6
    else if 13 <= n <= 20 then 5
    else 4
  }

  /** More colours never allow a longer code. */
  lemma MaxLengthNonIncreasing(a: int, b: int)
    requires 2 <= a <= b
    ensures MaxLengthFor(b) <= MaxLengthFor(a)
  {
  }

  lemma MulMonotone(a: nat, b: nat, x: nat, y: nat)
    requires a <= b && x <= y
    ensures a * x <= b * y
  {
    assert b * y - a * x == (b - a) * y + a * (y - x);
  }

  lemma {:induction false} PowMonotoneBase(a: nat, b: nat, e: nat)
    requires a <= b
    ensures Pow(a, e) <= Pow(b, e)
  {
    if e > 0 {
      PowMonotoneBase(a, b, e - 1);
      MulMonotone(a, b, Pow(a, e - 1), Pow(b, e - 1));
    }
  }

  lemma {:induction false} PowMonotoneExponent(b: nat, e1: nat, e2: nat)
    requires 1 <= b && e1 <= e2
    ensures Pow(b, e1) <= Pow(b, e2)
  {
    if e1 < e2 {
      PowMonotoneExponent(b, e1, e2 - 1);
      assert Pow(b, e2 - 1) <= b * Pow(b, e2 - 1);
    }
  }

  lemma MulShuffle(b: nat, x: nat, y: nat)
    ensures b * (x * y) == x * (b * y)
  {
  }

  lemma {:induction false} PowAdd(b: nat, e1: nat, e2: nat)
    ensures Pow(b, e1 + e2) == Pow(b, e1) * Pow(b, e2)
  {
    if e2 > 0 {
      PowAdd(b, e1, e2 - 1);
      calc {
        Pow(b, e1 + e2);
        b * Pow(b, e1 + (e2 - 1));
        b * (Pow(b, e1) * Pow(b, e2 - 1));
        { MulShuffle(b, Pow(b, e1), Pow(b, e2 - 1)); }
        Pow(b, e1) * (b * Pow(b, e2 - 1));
        Pow(b, e1) * Pow(b, e2);
      }
    }
  }

  /** The pool sizes at the table's maximum length for two to eight colours. */
  lemma SmallAlphabetPools()
    ensures Pow(2, 20) == 1048576 && Pow(3, 13) == 1594323 && Pow(4, 10) == 1048576
    ensures Pow(5, 9) == 1953125 && Pow(6, 8) == 1679616 && Pow(7, 7) == 823543
    ensures Pow(8, 7) == 2097152
  {
    assert Pow(2, 10) == 1024;
    PowAdd(2, 10, 10);
    assert Pow(3, 6) == 729 && Pow(3, 7) == 2187;
    PowAdd(3, 6, 7);
    assert Pow(4, 5) == 1024;
    PowAdd(4, 5, 5);
    assert Pow(5, 4) == 625 && Pow(5, 5) == 3125;
    PowAdd(5, 4, 5);
    assert Pow(6, 4) == 1296;
    PowAdd(6, 4, 4);
    assert Pow(7, 7) == 823543;
    assert Pow(8, 7) == 2097152;
  }

  /** The pool sizes one position past the table's maximum length. */
  lemma SmallAlphabetPoolsPastMax()
    ensures Pow(2, 21) == 2097152 && Pow(3, 14) == 4782969 && Pow(4, 11) == 4194304
    ensures Pow(5, 10) == 9765625 && Pow(6, 9) == 10077696 && Pow(7, 8) == 5764801
    ensures Pow(8, 8) == 16777216
  {
    SmallAlphabetPools();
    PowAdd(2, 20, 1);
    PowAdd(3, 13, 1);
    PowAdd(4, 10, 1);
    PowAdd(5, 9, 1);
    PowAdd(6, 8, 1);
    PowAdd(7, 7, 1);
    PowAdd(8, 7, 1);
  }

  /** For two to twenty colours, any code length the prompt accepts gives a
      pool of at most 3,200,000 candidates (the worst case is 20 colours at
      length 5). */
  lemma PoolSizeBounded(colors: seq<char>, length: nat)
    requires 2 <= |colors| <= 20
    requires length <= MaxLengthFor(|colors|)
    ensures |GenerateCombos(colors, length)| <= 3200000
  {
    var n, m := |colors|, MaxLengthFor(|colors|);
    PowMonotoneExponent(n, length, m);
    if n <= 8 {
      SmallAlphabetPools();
    } else if n <= 12 {
      PowMonotoneBase(n, 12, 6);
      assert Pow(12, 6) == 2985984;
    } else {
      PowMonotoneBase(n, 20, 5);
      assert Pow(20, 5) == 3200000;
    }
  }

  /** One position more than the table allows would give a pool of over two
      million candidates, for every alphabet of at least two colours. */
  lemma MaxLengthIsTight(n: nat)
    requires n >= 2
    ensures Pow(n, MaxLengthFor(n) + 1) > 2000000
  {
    if n <= 8 {
      SmallAlphabetPoolsPastMax();
    } else if n <= 12 {
      PowMonotoneBase(9, n, 7);
      assert Pow(9, 7) == 4782969;
    } else if n <= 20 {
      PowMonotoneBase(13, n, 6);
      assert Pow(13, 6) == 4826809;
    } else {
      PowMonotoneBase(21, n, 5);
      assert Pow(21, 5) == 4084101;
    }
  }
}
