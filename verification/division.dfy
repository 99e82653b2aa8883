/** Division with remainder. The unsigned case is long division: the
    divisor and a quotient accumulator are multiplied by ten together until
    the next step would lose a digit or reach the remainder, and that
    multiple is subtracted. The signed cases recurse on absolute values and
    fix the signs afterwards, which truncates the quotient toward zero. */
module Division {
  import opened MpiCore
  import opened Accessors
  import opened Arith
  import opened Multiply
  import opened Shift

  function AbsInt(x: int): nat {
    if x < 0 then -x else x
  }

  /** The quotient truncated toward zero, as C's integer division gives it. */
  function Quot(x: int, y: int): int
    requires y != 0
  {
    var q := AbsInt(x) / AbsInt(y);
    if (x < 0) == (y < 0) then q else -q
  }

  /** The remainder that goes with Quot. */
  function Rem(x: int, y: int): int
    requires y != 0
  {
    x - Quot(x, y) * y
  }

  /** Truncated division: the remainder is smaller than the divisor in
      magnitude and is zero or has the dividend's sign, and the multiple of
      the divisor lies between zero and the dividend. */
  lemma TruncatedDivision(x: int, y: int)
    requires y != 0
    ensures x == Quot(x, y) * y + Rem(x, y)
    ensures AbsInt(Rem(x, y)) < AbsInt(y)
    ensures Rem(x, y) == 0 || (Rem(x, y) < 0 <==> x < 0)
    ensures x >= 0 ==> 0 <= Quot(x, y) * y <= x
    ensures x < 0 ==> x <= Quot(x, y) * y <= 0
  {
    var ax: int, ay: int := AbsInt(x), AbsInt(y);
    var q: int, r0: int := ax / ay, ax % ay;
    UnsignedDivision(ax, ay, q, r0);
    var qt, rt := Quot(x, y), Rem(x, y);
    TruncatedCore(x, y, ax, ay, q, r0, qt, rt);
  }

  /** Euclidean division of non-negative operands. */
  lemma UnsignedDivision(ax: int, ay: int, q: int, r0: int)
    requires ax >= 0 && ay > 0 && q == ax / ay && r0 == ax % ay
    ensures ax == q * ay + r0 && 0 <= r0 < ay && q >= 0
  {
  }

  /** TruncatedDivision on named terms. */
  lemma TruncatedCore(x: int, y: int, ax: int, ay: int, q: int, r0: int, qt: int, rt: int)
    requires ax == (if x < 0 then -x else x) && ay == (if y < 0 then -y else y) && ay > 0
    requires ax == q * ay + r0 && 0 <= r0 < ay && q >= 0
    requires qt == (if (x < 0) == (y < 0) then q else -q) && rt == x - qt * y
    ensures x == qt * y + rt
    ensures (if rt < 0 then -rt else rt) < ay
    ensures rt == 0 || (rt < 0 <==> x < 0)
    ensures x >= 0 ==> 0 <= qt * y <= x
    ensures x < 0 ==> x <= qt * y <= 0
  {
    var m := q * ay;
    MulMono(0, q, ay);
    SignedMultiple(qt, q, y, ay, m, x < 0);
  }

  /** The multiple of the divisor that the truncated quotient gives. */
  lemma SignedMultiple(qt: int, q: int, y: int, ay: int, m: int, neg: bool)
    requires ay > 0 && (y == ay || y == -ay) && (y < 0 <==> y == -ay) && m == q * ay
    requires qt == (if neg == (y < 0) then q else -q)
    ensures qt * y == (if neg then -m else m)
  {
    if y == ay {
      if !neg {
        assert qt * y == q * ay;
      } else {
        assert qt * y == (-q) * ay;
        NegProducts(q, ay);
      }
    } else {
      if neg {
        assert qt * y == q * (-ay);
        NegProducts(ay, q);
      } else {
        assert qt * y == (-q) * (-ay);
        NegProducts(q, ay);
      }
    }
  }

  /** The quotient and remainder of non-negative operands are determined. */
  lemma UnsignedUnique(x: int, y: int, q: int, r: int)
    requires y > 0 && 0 <= r < y && q >= 0 && x == q * y + r
    ensures q == x / y && r == x % y
  {
    var q0, r0 := x / y, x % y;
    assert x == q0 * y + r0;
    if q > q0 {
      assert (q - q0) * y == q * y - q0 * y;
      MulMono(1, q - q0, y);
    } else if q < q0 {
      assert (q0 - q) * y == q0 * y - q * y;
      MulMono(1, q0 - q, y);
    }
  }

  /** How the reference answers change when the divisor changes sign. */
  lemma NegateDivisor(x: int, y: int, ny: int)
    requires y != 0 && ny == -y
    ensures Quot(x, y) == -Quot(x, ny) && Rem(x, y) == Rem(x, ny)
  {
    assert AbsInt(ny) == AbsInt(y);
    var qt := Quot(x, ny);
    NegProducts(qt, ny);
  }

  /** How the reference answers change when the dividend changes sign. */
  lemma NegateDividend(x: int, nx: int, y: int)
    requires y != 0 && nx == -x
    ensures Quot(x, y) == -Quot(nx, y) && Rem(x, y) == -Rem(nx, y)
  {
    assert AbsInt(nx) == AbsInt(x);
    var q: int := AbsInt(x) / AbsInt(y);
    if x == 0 {
      assert q == 0;
    }
    var qt := Quot(nx, y);
    NegProducts(qt, y);
  }

  /** Non-negative operands have a non-negative quotient and remainder. */
  lemma QuotSign(x: int, y: int)
    requires x >= 0 && y > 0
    ensures Quot(x, y) >= 0 && Rem(x, y) >= 0
  {
    TruncatedDivision(x, y);
  }

  lemma NegProducts(u: int, v: int)
    ensures (-u) * (-v) == u * v && (-u) * v == -(u * v)
  {
  }

  /** Arithmetic of one pass of the inner loop: the divisor multiple and
      the accumulator both grow tenfold, and the accumulator cannot lose a
      digit while the multiple still fits. */
  lemma ScaleStep(bv: int, c: int, s: int)
    requires bv >= 1 && c >= 1 && s == bv * c && 10 * s < Bound
    ensures 10 * s == bv * (10 * c) && 10 * c <= 10 * s
  {
    MulMono(1, bv, c);
  }

  /** No carry came out of a value below the bound. */
  lemma NoCarry(m: int, top: int, v: int)
    requires 0 <= m && 0 <= top && m + top * Bound == v && v < Bound
    ensures top == 0
  {
    if top > 0 {
      MulMono(1, top, Bound);
    }
  }

  /** Adding c to the quotient keeps the division identity and cannot
      overflow, because the new quotient times the divisor is at most the
      dividend. */
  lemma QuotientStep(av: int, qv: int, bv: int, rv: int, c: int, s: int)
    requires bv >= 1 && qv >= 0 && c >= 1 && s == bv * c && s <= rv
    requires av == qv * bv + rv && av < Bound
    ensures qv + c < Bound
    ensures forall q2 :: q2 == qv + c ==> av == q2 * bv + (rv - s)
  {
    assert (qv + c) * bv == qv * bv + c * bv;
    MulMono(1, bv, qv + c);
  }

  /** One pass of the inner loop: a multiple that can grow tenfold without
      losing a digit takes the accumulator along. */
  lemma InnerStep(b: Mpi, s: Mpi, c: Mpi, k: nat)
    requires Canonical(b) && Canonical(s) && Canonical(c)
    requires b.sign == Plus && s.sign == Plus && c.sign == Plus
    requires Value(b) >= 1 && Value(c) == Pow10(k) && Value(s) == Value(b) * Value(c)
    requires ShiftL(s).0 == 0
    ensures ShiftL(c).0 == 0
    ensures Value(ShiftL(s).1) == 10 * Value(s)
    ensures Value(ShiftL(s).1) == Value(b) * Value(ShiftL(c).1) && Value(ShiftL(c).1) == Pow10(k + 1)
  {
    var t := ShiftL(s).1;
    ScaleStep(Value(b), Value(c), Value(s));
    var (topc, c') := ShiftL(c);
    NoCarry(Magnitude(c'), topc, 10 * Value(c));
  }

  /** One pass of the outer loop: subtracting the multiple and adding the
      accumulator keeps the division identity and lowers the remainder. */
  lemma OuterStep(a: Mpi, b: Mpi, q: Mpi, r: Mpi, s: Mpi, c: Mpi)
    requires Canonical(a) && Canonical(b) && Canonical(q) && Canonical(r)
    requires Canonical(s) && Canonical(c)
    requires q.sign == Plus && r.sign == Plus && s.sign == Plus && c.sign == Plus
    requires Value(b) >= 1 && Value(c) >= 1 && Value(s) == Value(b) * Value(c)
    requires Value(b) <= Value(s) <= Value(r)
    requires Value(a) == Value(q) * Value(b) + Value(r)
    ensures Sub(r, s).status == Ok && Add(q, c).status == Ok
    ensures Sub(r, s).value.sign == Plus && Add(q, c).value.sign == Plus
    ensures Value(a) == Value(Add(q, c).value) * Value(b) + Value(Sub(r, s).value)
    ensures Value(Sub(r, s).value) < Value(r)
  {
    QuotientStep(Value(a), Value(q), Value(b), Value(r), Value(c), Value(s));
    var q2, r2 := Add(q, c).value, Sub(r, s).value;
    assert Value(q2) == Value(q) + Value(c) && Value(r2) == Value(r) - Value(s);
  }

  /** The inner loop of the long division: starting from b, the multiple
      s = b·10^k grows tenfold while that neither loses a digit nor reaches
      the remainder r. */
  method LargestMultiple(b: Mpi, r: Mpi) returns (s: Mpi, c: Mpi, ghost k: nat)
    requires Canonical(b) && Canonical(r) && b.sign == Plus && r.sign == Plus
    requires 1 <= Value(b) <= Value(r)
    ensures Canonical(s) && s.sign == Plus && Canonical(c) && c.sign == Plus
    ensures Value(c) == Pow10(k) && Value(s) == Value(b) * Value(c)
    ensures Value(b) <= Value(s) <= Value(r)
    ensures ShiftL(s).0 != 0 || Value(r) <= 10 * Value(s)
  {
    s := Copy(b);
    c := One();
    k := 0;
    while true
      invariant Canonical(s) && s.sign == Plus && Canonical(c) && c.sign == Plus
      invariant Value(s) == Value(b) * Value(c) && Value(c) == Pow10(k)
      invariant Value(b) <= Value(s) <= Value(r)
      decreases Bound - Value(s)
    {
      var (top, t) := ShiftL(s);
      if top != 0 {
        break;
      }
      InnerStep(b, s, c, k);
      if Cmp(r, t) <= 0 {
        return;
      }
      s := t;
      c := ShiftL(c).1;
      k := k + 1;
    }
  }

  /** The unsigned long division of a non-negative value by a positive one:
      each pass subtracts the largest multiple b·10^k that the inner loop
      finds and adds 10^k to the quotient. */
  method UDiv(a: Mpi, b: Mpi) returns (q: Mpi, r: Mpi)
    requires Canonical(a) && Canonical(b) && a.sign == Plus && b.sign == Plus
    requires Value(b) > 0
    ensures Canonical(q) && Canonical(r) && q.sign == Plus && r.sign == Plus
    ensures Value(a) == Value(q) * Value(b) + Value(r)
    ensures 0 <= Value(r) < Value(b)
  {
    q := Zero();
    r := Copy(a);
    assert Value(q) * Value(b) == 0;
    while Cmp(r, b) >= 0
      invariant Canonical(q) && Canonical(r) && q.sign == Plus && r.sign == Plus
      invariant Value(a) == Value(q) * Value(b) + Value(r)
      decreases Value(r)
    {
      var s, c, _ := LargestMultiple(b, r);
      OuterStep(a, b, q, r, s, c);
      r := Sub(r, s).value;
      q := Add(q, c).value;
    }
  }

  /** Division with remainder. A zero divisor is InvalidNumber with both
      outputs zero; otherwise the quotient is truncated toward zero and the
      remainder takes the dividend's sign. */
  method Div(a: Mpi, b: Mpi) returns (status: Status, q: Mpi, r: Mpi)
    requires Canonical(a) && Canonical(b)
    ensures Canonical(q) && Canonical(r)
    ensures status == Ok || status == InvalidNumber
    ensures status == InvalidNumber <==> Value(b) == 0
    ensures status == InvalidNumber ==> q == Zero() && r == Zero()
    ensures status == Ok ==> Value(q) == Quot(Value(a), Value(b)) && Value(r) == Rem(Value(a), Value(b))
    decreases Neg(a) + Neg(b)
  {
    if IsZero(b) {
      return InvalidNumber, Zero(), Zero();
    }
    if a.sign == Plus && b.sign == Minus {
      status, q, r := Div(a, Abs(b));
      QuotSign(Value(a), Value(Abs(b)));
      NegateDivisor(Value(a), Value(b), Value(Abs(b)));
      q := Negated(q);
    } else if a.sign == Minus && b.sign == Plus {
      status, q, r := Div(Abs(a), b);
      QuotSign(Value(Abs(a)), Value(b));
      NegateDividend(Value(a), Value(Abs(a)), Value(b));
      q := Negated(q);
      r := Negated(r);
    } else if a.sign == Minus && b.sign == Minus {
      status, q, r := Div(Abs(a), Abs(b));
      QuotSign(Value(Abs(a)), Value(Abs(b)));
      NegateDividend(Value(a), Value(Abs(a)), Value(b));
      NegateDivisor(Value(Abs(a)), Value(b), Value(Abs(b)));
      r := Negated(r);
    } else {
      q, r := UDiv(a, b);
      UnsignedUnique(Value(a), Value(b), Value(q), Value(r));
      status := Ok;
    }
  }

  /** Multiplying the quotient back and adding the remainder restores the
      dividend, with no overflow on the way. */
  lemma DivisionRoundTrip(a: Mpi, b: Mpi, q: Mpi, r: Mpi)
    requires Canonical(a) && Canonical(b) && Canonical(q) && Canonical(r)
    requires Value(b) != 0
    requires Value(q) == Quot(Value(a), Value(b)) && Value(r) == Rem(Value(a), Value(b))
    ensures Mul(q, b).status == Ok
    ensures Add(Mul(q, b).value, r) == Result(Ok, a)
  {
    var x, y, qv, rv := Value(a), Value(b), Value(q), Value(r);
    TruncatedDivision(x, y);
    var m := qv * y;
    assert x == m + rv && -Bound < m < Bound;
    ExactProduct(q, b, m);
    SumOfProducts(Mul(q, b).value, r, a, m, rv);
  }
}
