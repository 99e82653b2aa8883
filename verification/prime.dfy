/** Primality by trial division with odd divisors up to the square root. */
module Prime {
  import opened MpiCore
  import opened Accessors
  import opened Arith
  import opened Multiply
  import opened Division
  import opened Root

  /** The reference definition: at least 2 and no divisor strictly between
      1 and itself. */
  predicate IsPrimeNumber(x: int) {
    x >= 2 && forall d :: 2 <= d < x ==> x % d != 0
  }

  /** No odd number in [lo, hi) divides x. */
  predicate NoOddDivisor(x: int, lo: int, hi: int) {
    forall e :: lo <= e < hi && e % 2 == 1 ==> x % e != 0
  }

  /** What the trial division of the library decides: 2 is prime; above 2,
      a number is declared prime unless it is a perfect square or has an odd
      divisor between 3 and its floor square root. Even divisors are never
      tried. */
  predicate TrialVerdict(x: int) {
    x == 2 || (x > 2 && FloorSqrt(x) * FloorSqrt(x) != x && NoOddDivisor(x, 3, FloorSqrt(x) + 1))
  }

  /** A multiple of an even number is even. */
  lemma MultipleOfEven(x: int, m: int)
    requires x >= 0 && m >= 2 && m % 2 == 0 && x % m == 0
    ensures x % 2 == 0
  {
    var k, h := x / m, m / 2;
    assert x == m * k;
    assert m == 2 * h;
    assert x == 2 * (h * k);
  }

  /** A divisor above the floor square root has its cofactor at or below it. */
  lemma CoFactor(x: int, d: int)
    requires 2 <= d < x && x % d == 0 && d > FloorSqrt(x)
    ensures 2 <= x / d <= FloorSqrt(x) && x % (x / d) == 0
  {
    var s: int, e := FloorSqrt(x), x / d;
    assert x == d * e;
    assert e >= 2 by {
      if e <= 1 {
        MulMono(e, 1, d);
      }
    }
    assert e <= s by {
      if e > s {
        MulMono(s + 1, d, e);
        MulMono(s + 1, e, s + 1);
      }
    }
    UnsignedUnique(x, e, d, 0);
  }

  /** Every composite number has a divisor between 2 and its floor square
      root. */
  lemma SmallDivisor(x: int, d: int) returns (m: int)
    requires 2 <= d < x && x % d == 0
    ensures 2 <= m <= FloorSqrt(x) && x % m == 0
  {
    if d <= FloorSqrt(x) {
      m := d;
    } else {
      CoFactor(x, d);
      m := x / d;
    }
  }

  /** For odd numbers (and those up to 2) the trial verdict is primality. */
  lemma {:induction false} TrialVerdictIsPrime(x: int)
    requires x % 2 == 1 || x <= 2
    ensures TrialVerdict(x) <==> IsPrimeNumber(x)
  {
    if x > 2 {
      var s: int := FloorSqrt(x);
      assert s < x by {
        if s >= x {
          MulMono(2, s, s);
        }
      }
      if IsPrimeNumber(x) && s * s == x {
        assert s >= 2;
        assert x % s == 0 by {
          UnsignedUnique(x, s, s, 0);
        }
      }
      if TrialVerdict(x) && !IsPrimeNumber(x) {
        var d :| 2 <= d < x && x % d == 0;
        var m := SmallDivisor(x, d);
        if m % 2 == 0 {
          MultipleOfEven(x, m);
        }
      }
    }
  }

  /** The verdict is wrong for even numbers: 6 passes the trial. */
  lemma EvenNumberPasses()
    ensures TrialVerdict(6) && !IsPrimeNumber(6)
  {
    FloorSqrtUnique(6, 2);
    assert 6 % 2 == 0;
  }

  /** The root of an eleven-digit number is below 400000, so the odd
      candidates never overflow. */
  lemma RootIsSmall(x: nat)
    requires x < Bound
    ensures FloorSqrt(x) < 400_000
  {
    var s: int := FloorSqrt(x);
    if s >= 400_000 {
      MulMono(400_000, s, s);
      MulMono(400_000, s, 400_000);
    }
  }

  /** On non-negative operands the truncated remainder is the Euclidean one. */
  lemma RemIsMod(x: int, y: int)
    requires x >= 0 && y > 0
    ensures Rem(x, y) == x % y
  {
    TruncatedDivision(x, y);
    UnsignedUnique(x, y, Quot(x, y), Rem(x, y));
  }

  /** A candidate that leaves a remainder extends the divisor-free range
      by one odd step. */
  lemma TrialStep(x: int, d: int)
    requires d % 2 == 1 && NoOddDivisor(x, 3, d) && x % d != 0
    ensures NoOddDivisor(x, 3, d + 2)
  {
    forall e | 3 <= e < d + 2 && e % 2 == 1
      ensures x % e != 0
    {
      if e != d {
        assert e < d;
      }
    }
  }

  /** One trial: the remainder of the division is zero. */
  method DividesTest(n: Mpi, d: Mpi) returns (z: bool)
    requires Canonical(n) && Canonical(d) && Value(n) >= 0 && Value(d) > 0
    ensures z <==> Value(n) % Value(d) == 0
  {
    var st, _, rem := Div(n, d);
    RemIsMod(Value(n), Value(d));
    z := IsZero(rem);
  }

  /** The next odd candidate, d + 2. */
  method NextOdd(d: Mpi) returns (e: Mpi)
    requires Canonical(d) && 3 <= Value(d) < 400_000 && Value(d) % 2 == 1
    ensures Canonical(e) && Value(e) == Value(d) + 2 && Value(e) % 2 == 1
  {
    ghost var v := Value(d);
    e := Add(d, Two()).value;
    assert (v + 2) % 2 == 1;
  }

  /** The trial loop: odd d from 3 while d does not exceed the root r,
      stopping at the first d whose remainder is zero. */
  method OddTrial(n: Mpi, r: Mpi) returns (found: bool)
    requires Canonical(n) && Canonical(r) && Value(n) >= 3
    requires Value(r) == FloorSqrt(Value(n))
    ensures !found <==> NoOddDivisor(Value(n), 3, FloorSqrt(Value(n)) + 1)
  {
    ghost var x, s := Value(n), FloorSqrt(Value(n));
    RootIsSmall(x);
    var d := Small(3);
    while Cmp(d, r) <= 0
      invariant Canonical(d) && 3 <= Value(d) <= s + 2 && Value(d) % 2 == 1
      invariant NoOddDivisor(x, 3, Value(d))
      decreases s + 2 - Value(d)
    {
      var divides := DividesTest(n, d);
      if divides {
        return true;
      }
      TrialStep(x, Value(d));
      d := NextOdd(d);
    }
    assert NoOddDivisor(x, 3, s + 1) by {
      forall e | 3 <= e < s + 1 && e % 2 == 1
        ensures x % e != 0
      {
        assert e < Value(d);
      }
    }
    return false;
  }

  /** The perfect-square test: the root times itself equals n. The square
      of the floor root never exceeds n, so the product is exact. */
  method SquareTest(n: Mpi, root: Mpi) returns (square: bool)
    requires Canonical(n) && Canonical(root) && Value(n) >= 0
    requires Value(root) == FloorSqrt(Value(n))
    ensures square <==> FloorSqrt(Value(n)) * FloorSqrt(Value(n)) == Value(n)
  {
    ghost var s: int := Value(root);
    MulMono(0, s, s);
    var t := Mul(root, root);
    square := Cmp(t.value, n) == 0;
  }

  /** The trial division of the library, as a decision. */
  method TrialDecision(n: Mpi) returns (r: bool)
    requires Canonical(n)
    ensures r <==> TrialVerdict(Value(n))
  {
    var c := Cmp(n, Two());
    if c == 0 {
      return true;
    } else if c < 0 {
      return false;
    }
    var root := Sqrt(n);
    var square := SquareTest(n, root.value);
    if square {
      return false;
    }
    var found := OddTrial(n, root.value);
    r := !found;
  }

  /** Primality as the library tests it. */
  method IsPrime(n: Mpi) returns (r: bool)
    requires Canonical(n)
    ensures r <==> TrialVerdict(Value(n))
    ensures Value(n) % 2 == 1 || Value(n) <= 2 ==> (r <==> IsPrimeNumber(Value(n)))
  {
    r := TrialDecision(n);
    if Value(n) % 2 == 1 || Value(n) <= 2 {
      TrialVerdictIsPrime(Value(n));
    }
  }

  /** Primality with even numbers above 2 rejected before the odd trial. */
  method IsPrimeCorrected(n: Mpi) returns (r: bool)
    requires Canonical(n)
    ensures r <==> IsPrimeNumber(Value(n))
  {
    var c := Cmp(n, Two());
    if c == 0 {
      return true;
    } else if c < 0 {
      return false;
    }
    var st, _, rem := Div(n, Two());
    if IsZero(rem) {
      assert Value(n) % 2 == 0 by {
        UnsignedUnique(Value(n), 2, Quot(Value(n), 2), 0);
      }
      return false;
    }
    r := IsPrime(n);
  }
}
