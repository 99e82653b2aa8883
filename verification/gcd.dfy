/** The greatest common divisor: the operands are ordered, then divided
    repeatedly. */
module CommonDivisor {
  import opened MpiCore
  import opened Accessors
  import opened Arith
  import opened Multiply
  import opened Division

  /** d divides x; zero divides only zero. */
  predicate Divides(d: int, x: int) {
    if d == 0 then x == 0 else Rem(x, d) == 0
  }

  /** The sign and magnitude of a product. */
  lemma ProductSign(m: int, d: int, x: int)
    requires d != 0 && x == m * d
    ensures AbsInt(x) == AbsInt(m) * AbsInt(d)
    ensures m > 0 ==> (x < 0 <==> d < 0)
    ensures m < 0 ==> (x < 0 <==> d > 0)
  {
    if m > 0 && d > 0 {
      MulMono(1, m, d);
    } else if m > 0 {
      MulMono(1, m, -d);
      assert x == -(m * -d);
    } else if m < 0 && d > 0 {
      MulMono(1, -m, d);
      assert x == -(-m * d);
    } else if m < 0 {
      MulMono(1, -m, -d);
      assert x == -m * -d;
    }
  }

  /** Every multiple of d is divisible by d. */
  lemma MultipleDivides(m: int, d: int, x: int)
    requires d != 0 && x == m * d
    ensures Divides(d, x)
  {
    ProductSign(m, d, x);
    UnsignedUnique(AbsInt(x), AbsInt(d), AbsInt(m), 0);
    assert Quot(x, d) == m;
  }

  /** If y and x are multiples of d, so is x - q * y. */
  lemma Combination(x: int, y: int, q: int, k: int, j: int, d: int)
    requires x == k * d && y == j * d
    ensures x - q * y == (k - q * j) * d
  {
    assert q * y == (q * j) * d;
    assert (k - q * j) * d == k * d - (q * j) * d;
  }

  /** A common divisor of x and y divides x - q * y. */
  lemma DividesCombination(x: int, y: int, q: int, d: int, z: int)
    requires d != 0 && Divides(d, x) && Divides(d, y) && z == x - q * y
    ensures Divides(d, z)
  {
    var j, k := Quot(y, d), Quot(x, d);
    assert y == j * d;
    assert x == k * d;
    Combination(x, y, q, k, j, d);
    MultipleDivides(k - q * j, d, z);
  }

  /** A common divisor of x and y divides the remainder of x by y. */
  lemma DividesRemainder(x: int, y: int, d: int)
    requires y != 0 && d != 0 && Divides(d, x) && Divides(d, y)
    ensures Divides(d, Rem(x, y))
  {
    DividesCombination(x, y, Quot(x, y), d, Rem(x, y));
  }

  /** The dividend rebuilt from the remainder: x = r - (-q) * y. */
  lemma DividendFromRemainder(x: int, y: int, q: int, r: int)
    requires y != 0 && q == Quot(x, y) && r == Rem(x, y)
    ensures x == r - (-q) * y
  {
    TruncatedDivision(x, y);
    assert (-q) * y == -(q * y);
  }

  /** A common divisor of y and the remainder of x by y divides x. */
  lemma DividesDividend(x: int, y: int, d: int)
    requires y != 0 && d != 0 && Divides(d, y) && Divides(d, Rem(x, y))
    ensures Divides(d, x)
  {
    var q, r := Quot(x, y), Rem(x, y);
    DividendFromRemainder(x, y, q, r);
    DividesCombination(r, y, -q, d, x);
  }

  /** The divisors common to x and y are those common to y and the
      remainder of x by y. */
  lemma CommonDivisorStep(x: int, y: int, d: int)
    requires y != 0
    ensures Divides(d, x) && Divides(d, y) <==> Divides(d, y) && Divides(d, Rem(x, y))
  {
    if d != 0 && Divides(d, y) {
      if Divides(d, x) {
        DividesRemainder(x, y, d);
      }
      if Divides(d, Rem(x, y)) {
        DividesDividend(x, y, d);
      }
    }
  }

  /** Every number divides itself. */
  lemma DividesSelf(x: int)
    ensures Divides(x, x)
  {
    if x != 0 {
      MultipleDivides(1, x, x);
    }
  }

  /** Every number divides zero. */
  lemma DividesZero(d: int)
    ensures Divides(d, 0)
  {
  }

  /** How the library's gcd ends: it returns 1 together with a value, or it
      runs forever. */
  datatype GcdOutcome = Returns(code: int, value: Mpi) | Diverges

  /** The passes of the loop once the operands are ordered: dividing `big`
      by `sml` and, on a nonzero remainder, `sml` by `big`. */
  method TwoPasses(big: Mpi, sml: Mpi) returns (g: GcdOutcome)
    requires Canonical(big) && Canonical(sml)
    ensures g.Returns? ==> g.code == 1 && Canonical(g.value)
    ensures g.Returns? ==> g.value == big || g.value == sml
    ensures g.Returns? ==> Divides(Value(g.value), Value(big)) && Divides(Value(g.value), Value(sml))
    ensures g.Diverges? <==>
              && Value(big) != 0 && Value(sml) != 0
              && !Divides(Value(big), Value(sml)) && !Divides(Value(sml), Value(big))
  {
    DividesSelf(Value(big));
    DividesSelf(Value(sml));
    if IsZero(sml) {
      DividesZero(Value(big));
      return Returns(1, Copy(big));
    }
    var st, _, r := Div(big, sml);
    assert Divides(Value(sml), Value(big)) <==> IsZero(r);
    if IsZero(r) {
      return Returns(1, Copy(sml));
    }
    var st2, _, r2 := Div(sml, big);
    assert Divides(Value(big), Value(sml)) <==> IsZero(r2);
    if IsZero(r2) {
      return Returns(1, Copy(big));
    }
    return Diverges;
  }

  /** The gcd as the library computes it. The larger operand is `big`, the
      other `sml`; a zero `sml` returns `big`. The loop divides `big` by
      `sml` and returns `sml` on a zero remainder; otherwise it swaps the
      two and then copies `sml` into the remainder (the arguments of the
      copy are reversed), so the next pass divides `sml` by `big`, and the
      pass after that is the first one again. Two passes therefore decide
      the outcome. */
  method Gcd(a: Mpi, b: Mpi) returns (g: GcdOutcome)
    requires Canonical(a) && Canonical(b)
    ensures g.Returns? ==> g.code == 1 && Canonical(g.value)
    ensures g.Returns? ==> g.value == a || g.value == b
    ensures g.Returns? ==> Divides(Value(g.value), Value(a)) && Divides(Value(g.value), Value(b))
    ensures g.Diverges? <==>
              && Value(a) != 0 && Value(b) != 0
              && !Divides(Value(a), Value(b)) && !Divides(Value(b), Value(a))
  {
    if Cmp(a, b) > -1 {
      g := TwoPasses(Copy(a), Copy(b));
    } else {
      g := TwoPasses(Copy(b), Copy(a));
    }
  }

  /** The source of the divergence: 4 and 6 divide neither way. */
  lemma GcdOfFourAndSixDiverges()
    ensures !Divides(4, 6) && !Divides(6, 4)
  {
    assert Quot(6, 4) == 1;
    assert Quot(4, 6) == 0;
  }

  /** The gcd with the remainder copied into `sml`, which is Euclid's
      algorithm: the result divides both operands and every common divisor
      divides it. */
  method GcdCorrected(a: Mpi, b: Mpi) returns (g: GcdOutcome)
    requires Canonical(a) && Canonical(b)
    ensures g.Returns? && g.code == 1 && Canonical(g.value)
    ensures forall d :: Divides(d, Value(g.value)) <==> Divides(d, Value(a)) && Divides(d, Value(b))
  {
    var big, sml;
    if Cmp(a, b) > -1 {
      big, sml := Copy(a), Copy(b);
    } else {
      big, sml := Copy(b), Copy(a);
    }
    while !IsZero(sml)
      invariant Canonical(big) && Canonical(sml)
      invariant forall d :: Divides(d, Value(big)) && Divides(d, Value(sml)) <==> Divides(d, Value(a)) && Divides(d, Value(b))
      decreases AbsInt(Value(sml))
    {
      var st, _, r := Div(big, sml);
      TruncatedDivision(Value(big), Value(sml));
      forall d
        ensures Divides(d, Value(big)) && Divides(d, Value(sml)) <==> Divides(d, Value(sml)) && Divides(d, Value(r))
      {
        CommonDivisorStep(Value(big), Value(sml), d);
      }
      var swapped := Swap(big, sml);
      big, sml := swapped.0, swapped.1;
      sml := Copy(r);
    }
    forall d ensures Divides(d, Value(sml)) {
      DividesZero(d);
    }
    return Returns(1, Copy(big));
  }
}
