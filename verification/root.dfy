/** Integer square root by Newton's iteration on integers, with the
    floor square root as the independent reference. */
module Root {
  import opened MpiCore
  import opened Accessors
  import opened Arith
  import opened Multiply
  import opened Division

  /** The floor of the square root. */
  function FloorSqrt(n: nat): (s: nat)
    ensures s * s <= n < (s + 1) * (s + 1)
  {
    if n == 0 then 0
    else
      var s := FloorSqrt(n - 1);
      if (s + 1) * (s + 1) <= n then s + 1 else s
  }

  lemma SquareMono(u: int, v: int)
    requires 0 <= u <= v
    ensures u * u <= v * v
  {
    MulMono(u, v, u);
    MulMono(u, v, v);
  }

  lemma FloorSqrtUnique(n: nat, x: nat)
    requires x * x <= n < (x + 1) * (x + 1)
    ensures x == FloorSqrt(n)
  {
    var s: int := FloorSqrt(n);
    if x < s {
      SquareMono(x + 1, s);
    } else if x > s {
      SquareMono(s + 1, x);
    }
  }

  function Step(n: int, p: int): int
    requires p >= 1
  {
    (n / p + p) / 2
  }

  /** n lies below p times one more than its quotient by p. */
  lemma QuotientBounds(n: nat, p: int)
    requires p >= 1
    ensures p * (n / p) <= n < p * (n / p) + p
  {
    assert n == p * (n / p) + n % p;
  }

  lemma ArithMeanGeometric(p: int, s: int)
    ensures p * (2 * s - p) <= s * s
  {
    var d := s - p;
    assert p * (2 * s - p) == s * s - d * d;
    assert d * d >= 0;
  }

  /** If q + p falls short of twice s, then p * (q + 1) is at most s * s. */
  lemma ShortSum(p: int, q: int, s: int)
    requires p >= 1 && q >= 0 && q + p < 2 * s
    ensures p * q + p <= s * s
  {
    MulMono(q + 1, 2 * s - p, p);
    assert (q + 1) * p == p * q + p;
    assert (2 * s - p) * p == p * (2 * s - p);
    ArithMeanGeometric(p, s);
  }

  lemma StepAtLeastRoot(n: nat, p: int)
    requires p >= 1
    ensures FloorSqrt(n) <= Step(n, p)
  {
    var s: int, q := FloorSqrt(n), n / p;
    QuotientBounds(n, p);
    if q + p < 2 * s {
      ShortSum(p, q, s);
      assert false;
    }
  }

  /** Below p * p the quotient by p is below p. */
  lemma QuotientBelow(n: nat, p: int)
    requires p >= 1 && n < p * p
    ensures n / p < p
  {
    QuotientBounds(n, p);
    if n / p >= p {
      MulMono(p, n / p, p);
    }
  }

  lemma StepDescends(n: nat, p: int)
    requires p > FloorSqrt(n)
    ensures Step(n, p) < p
  {
    var s: int := FloorSqrt(n);
    SquareMono(s + 1, p);
    QuotientBelow(n, p);
  }

  lemma StepFromRoot(n: nat)
    requires FloorSqrt(n) >= 1
    ensures Step(n, FloorSqrt(n)) <= FloorSqrt(n) + 1
  {
    var s: int := FloorSqrt(n);
    var q := n / s;
    QuotientBounds(n, s);
    QuotientNearRoot(n, s, q);
  }

  /** Dividing by the floor root leaves a quotient at most two above it. */
  lemma QuotientNearRoot(n: int, s: int, q: int)
    requires s >= 1 && s * q <= n < (s + 1) * (s + 1)
    ensures q <= s + 2
  {
    assert (s + 1) * (s + 1) == s * (s + 2) + 1;
    assert (s + 3) * s == s * (s + 2) + s;
    if q >= s + 3 {
      MulMono(s + 3, q, s);
    }
  }

  lemma RootRange(n: nat)
    requires n >= 2
    ensures 1 <= FloorSqrt(n) <= n / 2
  {
    var s: int := FloorSqrt(n);
    if s >= 2 {
      MulMono(2, s, s);
    }
  }

  /** The guesses the iteration visits for n >= 2: never below the root,
      and at most n / 2 unless exactly one above the root. */
  predicate Guess(n: nat, x: int) {
    FloorSqrt(n) <= x && (x <= n / 2 || x == FloorSqrt(n) + 1)
  }

  /** A guess one above the root that exceeds n / 2 only occurs for small n. */
  lemma HighGuessIsSmall(n: nat, x: int)
    requires n >= 2 && x == FloorSqrt(n) + 1 && x > n / 2
    ensures x <= 3
  {
    var s: int := FloorSqrt(n);
    assert n <= 2 * s + 1;
    if s >= 3 {
      MulMono(3, s, s);
    }
  }

  /** The quotient by a guess of at least 2 is at most n / 2. */
  lemma QuotientHalves(n: nat, x: int)
    requires x >= 2
    ensures n / x <= n / 2
  {
    QuotientBounds(n, x);
    MulMono(2, x, n / x);
  }

  /** Everything one iteration from a visited guess needs: the guess is
      positive, the sum n / x + x fits in eleven digits, the next guess is a
      visited one again, and how it moves relative to the root. */
  lemma NewtonFacts(n: nat, x: int)
    requires 2 <= n < Bound && Guess(n, x)
    ensures x >= 1 && 0 <= n / x + x < Bound
    ensures Guess(n, Step(n, x))
    ensures x > FloorSqrt(n) ==> Step(n, x) < x
    ensures x == FloorSqrt(n) ==> Step(n, x) <= FloorSqrt(n) + 1
  {
    var s: int := FloorSqrt(n);
    RootRange(n);
    StepAtLeastRoot(n, x);
    if x > s {
      StepDescends(n, x);
    } else {
      StepFromRoot(n);
    }
    if x == 1 {
      assert n / x == n;
      assert s == 1;
      assert n < 4;
    } else {
      QuotientHalves(n, x);
      if x > n / 2 {
        HighGuessIsSmall(n, x);
      }
    }
  }

  /** The only 2-cycle of the iteration is {root, root + 1}, so its smaller
      member is the root. */
  lemma TwoCycle(n: nat, a: int, b: int)
    requires 2 <= n < Bound && Guess(n, a)
    requires b == Step(n, a) && a == Step(n, b) && a != b
    ensures (if a < b then a else b) == FloorSqrt(n)
  {
    NewtonFacts(n, a);
    NewtonFacts(n, b);
  }

  /** A fixed point of the iteration is the root. */
  lemma FixedPoint(n: nat, a: int)
    requires 2 <= n < Bound && Guess(n, a) && Step(n, a) == a
    ensures a == FloorSqrt(n)
  {
    NewtonFacts(n, a);
  }

  /** The loop measure: the current guess while it is two or more above the
      root, then the two closing states of the cycle {root, root + 1}. */
  function Remaining(s: nat, p: int, o: int): nat {
    if o >= s + 2 then o + 2
    else if (o == s && p == s + 1) || (o == s + 1 && p == s) then 0
    else 1
  }

  /** The quotient by two of a non-negative value. */
  method Halve(x: Mpi) returns (h: Mpi)
    requires Canonical(x) && Value(x) >= 0
    ensures Canonical(h) && Value(h) == Value(x) / 2
  {
    var st, q, _ := Div(x, Two());
    h := q;
  }

  /** One iteration does not leave the states the loop continues from
      without lowering the measure. */
  lemma MeasureDrops(n: nat, pp: int, p: int, o: int)
    requires 2 <= n < Bound && Guess(n, pp) && Guess(n, p)
    requires p == pp || p == Step(n, pp)
    requires o == Step(n, p) && o != p && o != pp
    ensures Remaining(FloorSqrt(n), p, o) < Remaining(FloorSqrt(n), pp, p)
  {
    NewtonFacts(n, p);
    NewtonFacts(n, pp);
  }

  /** One Newton step on the record: (n / p + p) / 2. A zero guess fails
      the division, which leaves a zero quotient. */
  method Iterate(n: Mpi, p: Mpi) returns (o: Mpi)
    requires Canonical(n) && Canonical(p) && Value(n) >= 0
    requires Value(n) <= 1 ==> Value(p) == 0
    requires Value(n) >= 2 ==> Guess(Value(n), Value(p))
    ensures Canonical(o)
    ensures Value(n) <= 1 ==> Value(o) == 0
    ensures Value(n) >= 2 ==> Value(p) >= 1 && Value(o) == Step(Value(n), Value(p))
  {
    if Value(n) >= 2 {
      NewtonFacts(Value(n), Value(p));
    }
    var st, q, _ := Div(n, p);
    var sum := Add(q, p);
    o := Halve(sum.value);
  }

  /** The iteration of the library: starting from n / 2, replace the guess
      p by (n / p + p) / 2 until the guess repeats or returns to the one
      before it, in which case the smaller of the last two is kept. For n
      of 0 and 1 the first guess is 0, whose division fails and leaves a
      zero quotient, so both yield 0. */
  method Newton(n: Mpi) returns (o: Mpi)
    requires Canonical(n) && Value(n) >= 0
    ensures Canonical(o)
    ensures Value(n) != 1 ==> Value(o) == FloorSqrt(Value(n))
    ensures Value(n) == 1 ==> Value(o) == 0
  {
    ghost var N: nat := Value(n);
    ghost var s: nat := FloorSqrt(N);
    if N >= 2 {
      RootRange(N);
    }
    o := Halve(n);
    var p := Copy(o);
    while true
      invariant Canonical(o) && Canonical(p)
      invariant N <= 1 ==> Value(o) == 0 && Value(p) == 0
      invariant N >= 2 ==> Guess(N, Value(o)) && Guess(N, Value(p))
      invariant N >= 2 ==> Value(o) == Value(p) || Value(o) == Step(N, Value(p))
      decreases Remaining(s, Value(p), Value(o))
    {
      var pp := Copy(p);
      p := Copy(o);
      o := Iterate(n, p);
      if Cmp(o, p) == 0 {
        if N >= 2 {
          FixedPoint(N, Value(p));
        }
        break;
      }
      if Cmp(o, pp) == 0 {
        if N >= 2 {
          TwoCycle(N, Value(pp), Value(p));
        }
        if Cmp(p, o) < 0 {
          o := Copy(p);
        }
        break;
      }
      if N >= 2 {
        NewtonFacts(N, Value(p));
        MeasureDrops(N, Value(pp), Value(p), Value(o));
      }
    }
  }

  /** The square root as the library computes it: a negative operand is
      rejected and leaves zero; otherwise the result is the floor square
      root, except that the root of 1 comes out as 0. */
  method Sqrt(n: Mpi) returns (r: Result)
    requires Canonical(n)
    ensures Canonical(r.value)
    ensures Value(n) < 0 <==> r.status == InvalidNumber
    ensures Value(n) < 0 ==> r.value == Zero()
    ensures Value(n) >= 0 ==> r.status == Ok
    ensures Value(n) >= 0 && Value(n) != 1 ==> Value(r.value) == FloorSqrt(Value(n))
    ensures Value(n) == 1 ==> Value(r.value) == 0 && FloorSqrt(Value(n)) == 1
  {
    if n.sign == Minus {
      return Result(InvalidNumber, Zero());
    }
    var o := Newton(n);
    assert Value(n) == 1 ==> FloorSqrt(Value(n)) == 1 by {
      if Value(n) == 1 {
        FloorSqrtUnique(1, 1);
      }
    }
    r := Result(Ok, o);
  }

  /** The square root with 0 and 1 answered directly, which makes it the
      floor square root of every non-negative operand. */
  method SqrtCorrected(n: Mpi) returns (r: Result)
    requires Canonical(n)
    ensures Canonical(r.value)
    ensures Value(n) < 0 <==> r.status == InvalidNumber
    ensures Value(n) < 0 ==> r.value == Zero()
    ensures Value(n) >= 0 ==> r.status == Ok && Value(r.value) == FloorSqrt(Value(n))
  {
    if n.sign == Minus {
      return Result(InvalidNumber, Zero());
    }
    if Cmp(n, One()) <= 0 {
      FloorSqrtUnique(Value(n), Value(n));
      return Result(Ok, Copy(n));
    }
    var o := Newton(n);
    r := Result(Ok, o);
  }
}
