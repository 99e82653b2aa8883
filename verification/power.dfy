/** Exponentiation by squaring: an even exponent squares the base and
    halves the exponent, an odd one peels off one factor. */
module Power {
  import opened MpiCore
  import opened Accessors
  import opened Arith
  import opened Multiply
  import opened Division

  /** x to the n-th power. */
  function Power(x: int, n: nat): int {
    if n == 0 then 1 else x * Power(x, n - 1)
  }

  lemma {:induction false} PowerOfSquare(x: int, k: nat)
    ensures Power(x * x, k) == Power(x, 2 * k)
  {
    if k > 0 {
      PowerOfSquare(x, k - 1);
      assert Power(x, 2 * k) == x * (x * Power(x, 2 * k - 2));
      assert x * (x * Power(x, 2 * k - 2)) == (x * x) * Power(x, 2 * k - 2);
    }
  }

  lemma {:induction false} PowerAbs(x: int, n: nat)
    ensures AbsInt(Power(x, n)) == Power(AbsInt(x), n)
  {
    if n > 0 {
      PowerAbs(x, n - 1);
      AbsMul(x, Power(x, n - 1));
    }
  }

  lemma AbsMul(x: int, y: int)
    ensures AbsInt(x * y) == AbsInt(x) * AbsInt(y)
  {
    if x < 0 && y < 0 {
      assert x * y == (-x) * (-y);
    } else if x < 0 {
      assert x * y == -((-x) * y);
    } else if y < 0 {
      assert x * y == -(x * (-y));
    }
  }

  /** Powers of a base of at least one grow with the exponent. */
  lemma {:induction false} PowerGrows(y: int, m: nat, n: nat)
    requires y >= 1 && m <= n
    ensures 1 <= Power(y, m) <= Power(y, n)
  {
    if m < n {
      PowerGrows(y, m, n - 1);
      MulMono(1, y, Power(y, n - 1));
    } else if m > 0 {
      PowerGrows(y, m - 1, m - 1);
      MulMono(1, y, Power(y, m - 1));
    }
  }

  lemma {:induction false} PowerOfZero(n: nat)
    requires n >= 1
    ensures Power(0, n) == 0
  {
  }

  /** When x^n fits and n >= 2, so do x * x and x^(n - 1). */
  lemma SmallerPowersFit(x: int, n: nat)
    requires n >= 2 && AbsInt(Power(x, n)) < Bound
    ensures AbsInt(x * x) < Bound && AbsInt(Power(x, n - 1)) < Bound
  {
    PowerAbs(x, n);
    PowerAbs(x, n - 1);
    PowerAbs(x, 2);
    assert Power(x, 2) == x * x by {
      assert Power(x, 1) == x;
    }
    if x == 0 {
      PowerOfZero(n - 1);
    } else {
      PowerGrows(AbsInt(x), 2, n);
      PowerGrows(AbsInt(x), n - 1, n);
    }
  }

  /** Halving an exponent of at least two. */
  lemma Halving(n: int)
    requires n >= 2
    ensures 0 <= Quot(n, 2) < n
    ensures Rem(n, 2) == 0 ==> 2 * Quot(n, 2) == n
  {
    QuotSign(n, 2);
    assert Quot(n, 2) == n / 2;
  }

  /** The even step: x^n is (x * x)^(n / 2), and it is exact when x^n fits. */
  lemma EvenStep(x: int, n: nat, k: int, sq: Result, p: Result)
    requires n >= 2 && 2 * k == n
    requires Canonical(sq.value) && Canonical(p.value)
    requires -Bound < x * x < Bound ==> sq.status == Ok && Value(sq.value) == x * x
    requires AbsInt(Power(Value(sq.value), k)) < Bound ==>
               p.status == Ok && Value(p.value) == Power(Value(sq.value), k)
    ensures AbsInt(Power(x, n)) < Bound ==>
              sq.status == Ok && p.status == Ok && Value(p.value) == Power(x, n)
  {
    if AbsInt(Power(x, n)) < Bound {
      SmallerPowersFit(x, n);
      PowerOfSquare(x, k);
    }
  }

  /** The odd step: x^n is x * x^(n - 1), and it is exact when x^n fits. */
  lemma OddStep(x: int, n: nat, n1: nat, p: Result, m: Result)
    requires n >= 2 && n1 == n - 1
    requires Canonical(p.value) && Canonical(m.value)
    requires AbsInt(Power(x, n1)) < Bound ==>
               p.status == Ok && Value(p.value) == Power(x, n1)
    requires -Bound < x * Value(p.value) < Bound ==>
               m.status == Ok && Value(m.value) == x * Value(p.value)
    ensures AbsInt(Power(x, n)) < Bound ==>
              p.status == Ok && m.status == Ok && Value(m.value) == Power(x, n)
  {
    if AbsInt(Power(x, n)) < Bound {
      SmallerPowersFit(x, n);
    }
  }

  /** Exponentiation. A negative exponent is InvalidNumber with a zero
      output; exponent zero gives one and exponent one a copy of the base.
      Any failing step makes the status Failed; the result is exact
      whenever the true power fits. */
  method Pow(a: Mpi, b: Mpi) returns (r: Result)
    requires Canonical(a) && Canonical(b)
    ensures Canonical(r.value)
    ensures r.status == Ok || r.status == Failed || r.status == InvalidNumber
    ensures r.status == InvalidNumber <==> Value(b) < 0
    ensures Value(b) < 0 ==> r.value == Zero()
    ensures Value(b) >= 0 && AbsInt(Power(Value(a), Value(b))) < Bound ==>
              r.status == Ok && Value(r.value) == Power(Value(a), Value(b))
    decreases AbsInt(Value(b)), 1
  {
    if b.sign == Minus {
      return Result(InvalidNumber, Zero());
    }
    if IsZero(b) {
      return Result(Ok, One());
    }
    if Cmp(b, One()) == 0 {
      assert Power(Value(a), 1) == Value(a);
      return Result(Ok, Copy(a));
    }
    var _, _, rest := Div(b, Two());
    if IsZero(rest) {
      r := PowSquare(a, b);
    } else {
      r := PowPeel(a, b);
    }
  }

  /** The even case: a^b computed as (a * a)^(b / 2). */
  method PowSquare(a: Mpi, b: Mpi) returns (r: Result)
    requires Canonical(a) && Canonical(b) && Value(b) >= 2 && Rem(Value(b), 2) == 0
    ensures Canonical(r.value) && (r.status == Ok || r.status == Failed)
    ensures AbsInt(Power(Value(a), Value(b))) < Bound ==>
              r.status == Ok && Value(r.value) == Power(Value(a), Value(b))
    decreases AbsInt(Value(b)), 0
  {
    var sq := Mul(a, a);
    var st, tb, _ := Div(b, Two());
    Halving(Value(b));
    var p := Pow(sq.value, tb);
    EvenStep(Value(a), Value(b), Value(tb), sq, p);
    var failed := sq.status != Ok || st != Ok || p.status != Ok;
    r := Result(if failed then Failed else Ok, p.value);
  }

  /** The odd case: a^b computed as a * a^(b - 1). */
  method PowPeel(a: Mpi, b: Mpi) returns (r: Result)
    requires Canonical(a) && Canonical(b) && Value(b) >= 2
    ensures Canonical(r.value) && (r.status == Ok || r.status == Failed)
    ensures AbsInt(Power(Value(a), Value(b))) < Bound ==>
              r.status == Ok && Value(r.value) == Power(Value(a), Value(b))
    decreases AbsInt(Value(b)), 0
  {
    var tb := Sub(b, One());
    var p := Pow(a, tb.value);
    var m := Mul(a, p.value);
    OddStep(Value(a), Value(b), Value(tb.value), p, m);
    var failed := tb.status != Ok || p.status != Ok || m.status != Ok;
    r := Result(if failed then Failed else Ok, m.value);
  }
}
