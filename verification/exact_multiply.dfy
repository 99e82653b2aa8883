/** Multiplication that reports overflow whenever the product does not fit.
    The library's row loop writes digit j of row i at index i + j and ignores
    the error SetData returns for an index of Length or more, so a nonzero
    row digit landing there is lost without an overflow status. The corrected
    row loop below rejects such a row, and so is exact on every input. */
module ExactMultiply {
  import opened MpiCore
  import opened Accessors
  import opened Arith
  import opened Multiply

  /** Fifty billion: a single 5 in the top digit. */
  function HalfBound(): (r: Mpi)
    ensures Canonical(r) && r.sign == Plus && Value(r) == 50_000_000_000
    ensures r.data[Length - 1] == 5 && forall k :: 0 <= k < Length - 1 ==> r.data[k] == 0
  {
    var r := Mpi(Zeros(Length - 1) + [5], Plus);
    assert AllDigits(r.data) by {
      forall k | 0 <= k < Length ensures IsDigit(r.data[k]) {
        if k < Length - 1 {
          assert r.data[k] == Zeros(Length - 1)[k];
        }
      }
    }
    MagAppend(Zeros(Length - 1), [5]);
    assert Mag([5]) == 5 + 10 * Mag([5][1..]);
    r
  }

  /** A row of the product split at the width boundary: hi is what lands at
      index Length or above, and P1 = Mbi + bi * p is the extended prefix
      of the multiplier. With nothing past the width the row adds exactly;
      with something there A * P1 does not fit. */
  lemma CheckedRowArith(A: int, bi: int, p: int, q: int, lo: int, hi: int, Mbi: int, P1: int)
    requires A >= 0 && bi >= 0 && p >= 1 && q >= 1 && lo >= 0 && hi >= 0 && Mbi >= 0
    requires p * q == Bound && A * bi == lo + q * hi && P1 == Mbi + bi * p
    ensures hi == 0 ==> A * Mbi + p * lo == A * P1
    ensures hi >= 1 ==> A * P1 >= Bound
  {
    var ab, am := A * bi, A * Mbi;
    RowSplit(ab, p, q, lo, hi, p * lo);
    RowDistributes(A, Mbi, bi, p, ab, am);
    MulMono(0, Mbi, A);
    MulMono(0, lo, p);
    if hi >= 1 {
      MulMono(1, hi, Bound);
    }
  }

  /** The first i + 1 digits of b weigh the first i plus digit i. */
  lemma PrefixStep(b: Mpi, i: nat)
    requires Canonical(b) && i < Length
    ensures Mag(b.data[..i + 1]) == Mag(b.data[..i]) + b.data[i] * Pow10(i)
    ensures Mag(b.data[..i]) >= 0
  {
    MagSnoc(b.data, i + 1);
    PrefixAtMost(b.data, i);
  }

  /** A digit row split at index Length - i: both parts are non-negative,
      the upper part is zero exactly when its digits are, and the two place
      values multiply to the width. */
  lemma RowSplitFacts(ds: seq<int>, i: nat)
    requires |ds| == Length && AllDigits(ds) && i < Length
    ensures Pow10(i) * Pow10(Length - i) == Bound
    ensures Mag(ds[..Length - i]) >= 0 && Mag(ds[Length - i..]) >= 0
    ensures Mag(ds[Length - i..]) == 0 <==> AllZero(ds[Length - i..])
  {
    Pow10Add(i, Length - i);
    Pow10Length();
    AllDigitsSlice(ds, 0, Length - i);
    AllDigitsSlice(ds, Length - i, Length);
    MagBounds(ds[..Length - i]);
    MagBounds(ds[Length - i..]);
    MagZero(ds[Length - i..]);
  }

  /** A row that carries out of its top digit or has a nonzero digit past
      the width: a times the first i + 1 digits of b does not fit. */
  lemma CheckedRowRejects(a: Mpi, b: Mpi, i: nat, ds: seq<int>, h: int)
    requires Canonical(a) && Canonical(b) && i < Length
    requires |ds| == Length && AllDigits(ds) && 0 <= h
    requires Mag(ds) + Pow10(Length) * h == Magnitude(a) * b.data[i]
    requires h != 0 || !AllZero(ds[Length - i..])
    ensures Magnitude(a) * Mag(b.data[..i + 1]) >= Bound
  {
    if h == 0 {
      PrefixStep(b, i);
      RowSplitFacts(ds, i);
      var x := Placed(ds, i);
      CheckedRowArith(Magnitude(a), b.data[i], Pow10(i), Pow10(Length - i),
                      Mag(ds[..Length - i]), Mag(ds[Length - i..]),
                      Mag(b.data[..i]), Mag(b.data[..i + 1]));
    } else {
      CarryRejects(a, b, i, ds, h);
    }
  }

  /** A carry out of the top digit of row i: a times the first i + 1 digits
      of b does not fit. */
  lemma CarryRejects(a: Mpi, b: Mpi, i: nat, ds: seq<int>, h: int)
    requires Canonical(a) && Canonical(b) && i < Length
    requires |ds| == Length && AllDigits(ds) && 1 <= h
    requires Mag(ds) + Pow10(Length) * h == Magnitude(a) * b.data[i]
    ensures Magnitude(a) * Mag(b.data[..i + 1]) >= Bound
  {
    PrefixStep(b, i);
    var A, bi := Magnitude(a), b.data[i];
    assert A * bi >= Bound by {
      var P := Pow10(Length);
      Pow10Length();
      MagBounds(ds);
      MulMono(1, h, P);
    }
    RowCarryArith(A, bi, Pow10(i), Mag(b.data[..i]), Mag(b.data[..i + 1]));
  }

  /** A row with no carry and nothing past the width adds exactly. */
  lemma CheckedRowAdds(a: Mpi, b: Mpi, i: nat, ds: seq<int>)
    requires Canonical(a) && Canonical(b) && i < Length
    requires |ds| == Length && AllDigits(ds)
    requires Mag(ds) == Magnitude(a) * b.data[i]
    requires AllZero(ds[Length - i..])
    ensures Magnitude(a) * Mag(b.data[..i]) + Magnitude(Placed(ds, i))
              == Magnitude(a) * Mag(b.data[..i + 1])
  {
    PrefixStep(b, i);
    RowSplitFacts(ds, i);
    var x := Placed(ds, i);
    CheckedRowArith(Magnitude(a), b.data[i], Pow10(i), Pow10(Length - i),
                    Mag(ds[..Length - i]), Mag(ds[Length - i..]),
                    Mag(b.data[..i]), Mag(b.data[..i + 1]));
  }

  /** A times a prefix of b is at most A times b. */
  lemma PrefixProduct(a: Mpi, b: Mpi, i: nat)
    requires Canonical(a) && Canonical(b) && i <= Length
    ensures 0 <= Magnitude(a) * Mag(b.data[..i]) <= Magnitude(a) * Magnitude(b)
  {
    PrefixAtMost(b.data, i);
    MulMono(Mag(b.data[..i]), Magnitude(b), Magnitude(a));
  }

  /** The state of the corrected loop before row i: the running total is
      the exact product of a and the first i digits of b. */
  predicate Partial(a: Mpi, b: Mpi, i: nat, acc: Mpi) {
    && Canonical(a) && Canonical(b) && Canonical(acc) && acc.sign == Plus && i <= Length
    && Magnitude(acc) == Magnitude(a) * Mag(b.data[..i])
  }

  /** Row i of the corrected loop: the row is rejected as overflow when it
      carries out of its top digit or has a nonzero digit past the width. */
  function NextRowChecked(a: Mpi, b: Mpi, i: nat, acc: Mpi): (r: Result)
    requires Partial(a, b, i, acc) && i < Length
    ensures Canonical(r.value) && r.value.sign == Plus
    ensures r.status == Ok || r == Result(Overflow, Zero())
    ensures r.status == Ok <==> Magnitude(a) * Mag(b.data[..i + 1]) < Bound
    ensures r.status == Ok ==> Magnitude(r.value) == Magnitude(a) * Mag(b.data[..i + 1])
  {
    var row := MulDigit(a.data, b.data[i], 0);
    if row.1 != 0 || !AllZero(row.0[Length - i..]) then
      CheckedRowRejects(a, b, i, row.0, row.1);
      Result(Overflow, Zero())
    else
      CheckedRowAdds(a, b, i, row.0);
      var s := Add(acc, Placed(row.0, i));
      if s.status != Ok then Result(s.status, Zero())
      else s
  }

  /** The corrected outer loop, from row i on; the running total is the
      exact product of a and the first i digits of b. */
  function MulRowsChecked(a: Mpi, b: Mpi, i: nat, acc: Mpi): (r: Result)
    requires Partial(a, b, i, acc)
    ensures Canonical(r.value) && r.value.sign == Plus
    ensures r.status == Ok || r == Result(Overflow, Zero())
    ensures r.status == Ok ==> Magnitude(r.value) == Magnitude(a) * Magnitude(b)
    decreases Length - i
  {
    if i == Length then
      FullPrefix(b);
      Result(Ok, acc)
    else
      var next := NextRowChecked(a, b, i, acc);
      if next.status != Ok then next
      else MulRowsChecked(a, b, i + 1, next.value)
  }

  /** The corrected loop rejects no product that fits: every prefix product
      is at most the whole one, so no row is refused. */
  lemma {:induction false} MulRowsCheckedFits(a: Mpi, b: Mpi, i: nat, acc: Mpi)
    requires Partial(a, b, i, acc)
    ensures Magnitude(a) * Magnitude(b) < Bound ==> MulRowsChecked(a, b, i, acc).status == Ok
    decreases Length - i
  {
    if i < Length && Magnitude(a) * Magnitude(b) < Bound {
      var next := NextRowChecked(a, b, i, acc);
      PrefixProduct(a, b, i + 1);
      MulRowsCheckedFits(a, b, i + 1, next.value);
    }
  }

  /** The corrected multiplication: overflow exactly when the product does
      not fit, and otherwise the exact product. */
  function MulCorrected(a: Mpi, b: Mpi): (r: Result)
    requires Canonical(a) && Canonical(b)
    ensures Canonical(r.value)
    ensures r.status == Ok <==> -Bound < Value(a) * Value(b) < Bound
    ensures r.status == Ok ==> Value(r.value) == Value(a) * Value(b)
    ensures r.status != Ok ==> r == Result(Overflow, Zero())
    decreases Neg(a) + Neg(b), 1
  {
    if IsZero(a) || IsZero(b) then
      ShortCutProduct(Value(a), Value(b));
      Result(Ok, Zero())
    else if Cmp(a, One()) == 0 then
      ShortCutProduct(Value(a), Value(b));
      Result(Ok, Copy(b))
    else if Cmp(b, One()) == 0 then
      ShortCutProduct(Value(a), Value(b));
      Result(Ok, Copy(a))
    else if a.sign == Plus && b.sign == Minus then
      MulCorrectedMixed(a, b)
    else if a.sign == Minus && b.sign == Plus then
      var r := MulCorrectedMixed(b, a);
      assert Value(b) * Value(a) == Value(a) * Value(b);
      r
    else
      MulCorrectedSameSign(a, b)
  }

  /** A positive a times a negative b, through the magnitude of b. */
  function MulCorrectedMixed(a: Mpi, b: Mpi): (r: Result)
    requires Canonical(a) && Canonical(b) && a.sign == Plus && b.sign == Minus && !IsZero(a)
    ensures Canonical(r.value)
    ensures r.status == Ok <==> -Bound < Value(a) * Value(b) < Bound
    ensures r.status == Ok ==> Value(r.value) == Value(a) * Value(b)
    ensures r.status != Ok ==> r == Result(Overflow, Zero())
    decreases Neg(a) + Neg(b), 0
  {
    var r := MulCorrected(a, Abs(b));
    ProductFlip(Value(a), Value(Abs(b)), Value(b));
    Result(r.status, Negated(r.value))
  }

  /** Operands of equal sign: the corrected row loop on the magnitudes. */
  function MulCorrectedSameSign(a: Mpi, b: Mpi): (r: Result)
    requires Canonical(a) && Canonical(b) && a.sign == b.sign
    ensures Canonical(r.value)
    ensures r.status == Ok <==> -Bound < Value(a) * Value(b) < Bound
    ensures r.status == Ok ==> Value(r.value) == Value(a) * Value(b)
    ensures r.status != Ok ==> r == Result(Overflow, Zero())
  {
    SameSignProduct(Value(a), Value(b), Magnitude(a), Magnitude(b));
    assert Mag(b.data[..0]) == 0;
    MulRowsCheckedFits(a, b, 0, Zero());
    MulRowsChecked(a, b, 0, Zero())
  }

  /** The corrected multiplication is commutative on every input. */
  lemma MulCorrectedCommutes(a: Mpi, b: Mpi)
    requires Canonical(a) && Canonical(b)
    ensures MulCorrected(a, b) == MulCorrected(b, a)
  {
    assert Value(a) * Value(b) == Value(b) * Value(a);
    if MulCorrected(a, b).status == Ok {
      CanonicalUnique(MulCorrected(a, b).value, MulCorrected(b, a).value);
    }
  }

  /** Where the product fits, the library's multiplication and the corrected
      one agree. */
  lemma MulAgreesWhenFits(a: Mpi, b: Mpi)
    requires Canonical(a) && Canonical(b)
    requires -Bound < Value(a) * Value(b) < Bound
    ensures Mul(a, b) == MulCorrected(a, b)
  {
    CanonicalUnique(Mul(a, b).value, MulCorrected(a, b).value);
  }

  /** Digits that are all zero below index i weigh nothing. */
  lemma ZeroPrefix(b: Mpi, i: nat)
    requires WellFormed(b) && i <= Length
    requires forall k :: 0 <= k < i ==> b.data[k] == 0
    ensures Mag(b.data[..i]) == 0
  {
    AllDigitsSlice(b.data, 0, i);
    assert AllZero(b.data[..i]);
    MagZero(b.data[..i]);
  }

  /** The library's multiplication of fifty billion by two: the first row
      carries out of its top digit, so the product is overflow. */
  lemma TopRowCarries(a: Mpi, b: Mpi)
    requires Canonical(a) && a.sign == Plus && Value(a) == 50_000_000_000
    requires Canonical(b) && b.sign == Plus && Value(b) == 2 && b.data[0] == 2
    ensures Mul(a, b) == Result(Overflow, Zero())
  {
    var row := MulDigit(a.data, b.data[0], 0);
    Pow10Length();
    MagBounds(row.0);
    assert Mag(row.0) + Bound * row.1 == Bound;
    assert Mag(b.data[..0]) == 0;
    assert NextRow(a, b, 0, Zero()) == Result(Overflow, Zero());
    assert MulRows(a, b, 0, Zero()) == Result(Overflow, Zero());
    assert !IsZero(a) && !IsZero(b) && Cmp(a, One()) != 0 && Cmp(b, One()) != 0;
  }

  /** A row whose digits below the width are all zero and which does not
      carry leaves a zero running total at zero. */
  lemma EmptyRow(a: Mpi, b: Mpi, i: nat)
    requires Canonical(a) && Canonical(b) && i < Length
    requires Magnitude(Zero()) == (Magnitude(a) * Mag(b.data[..i])) % Bound
    requires MulDigit(a.data, b.data[i], 0).1 == 0
    requires Mag(MulDigit(a.data, b.data[i], 0).0[..Length - i]) == 0
    ensures NextRow(a, b, i, Zero()) == Result(Ok, Zero())
  {
    ZeroRowAdds(MulDigit(a.data, b.data[i], 0).0, i);
  }

  /** Adding a placed row that keeps only zero digits changes nothing. */
  lemma ZeroRowAdds(ds: seq<int>, i: nat)
    requires |ds| == Length && AllDigits(ds) && i < Length
    requires Mag(ds[..Length - i]) == 0
    ensures Add(Zero(), Placed(ds, i)) == Result(Ok, Zero())
  {
    var x := Placed(ds, i);
    assert Magnitude(x) == 0;
    CanonicalUnique(Add(Zero(), x).value, Zero());
  }

  /** The row of a zero digit is all zeros with no carry. */
  lemma ZeroDigitProduct(ds: seq<int>, i: nat)
    requires |ds| == Length && AllDigits(ds) && i < Length
    ensures MulDigit(ds, 0, 0).1 == 0
    ensures Mag(MulDigit(ds, 0, 0).0[..Length - i]) == 0
  {
    var row := MulDigit(ds, 0, 0);
    Pow10Length();
    MagBounds(row.0);
    assert row.1 == 0 && Mag(row.0) == 0;
    MagZero(row.0);
    AllDigitsSlice(row.0, 0, Length - i);
    assert AllZero(row.0[..Length - i]);
    MagZero(row.0[..Length - i]);
  }

  /** The top row of two times fifty billion is the digits of 10 with no
      carry; its lowest digit, the only one kept, is zero. */
  lemma TenProduct(ds: seq<int>)
    requires |ds| == Length && AllDigits(ds) && Mag(ds) == 2
    ensures MulDigit(ds, 5, 0).1 == 0
    ensures Mag(MulDigit(ds, 5, 0).0[..1]) == 0
  {
    var row := MulDigit(ds, 5, 0);
    Pow10Length();
    MagBounds(row.0);
    assert row.1 == 0 && Mag(row.0) == 10;
    assert row.0[0] == 0 by {
      assert Mag(row.0) == row.0[0] + 10 * Mag(row.0[1..]);
    }
    assert Mag(row.0[..1]) == row.0[..1][0] + 10 * Mag(row.0[..1][1..]);
    assert row.0[..1][1..] == [];
  }

  /** A zero running total is a times the first i digits of b modulo the
      width when those digits weigh nothing. */
  lemma ZeroTotal(a: Mpi, b: Mpi, i: nat)
    requires Canonical(a) && Canonical(b) && i <= Length
    requires Mag(b.data[..i]) == 0
    ensures Magnitude(Zero()) == (Magnitude(a) * Mag(b.data[..i])) % Bound
  {
  }

  /** The rows below the top of two times fifty billion multiply by zero
      digits: from row i on the loop answers what it answers from the top
      row on. */
  lemma {:induction false} ZeroRowsSkip(a: Mpi, b: Mpi, i: nat)
    requires Canonical(a) && Canonical(b) && i <= Length - 1
    requires forall k :: 0 <= k < Length - 1 ==> b.data[k] == 0
    ensures Magnitude(Zero()) == (Magnitude(a) * Mag(b.data[..i])) % Bound
    ensures Magnitude(Zero()) == (Magnitude(a) * Mag(b.data[..Length - 1])) % Bound
    ensures MulRows(a, b, i, Zero()) == MulRows(a, b, Length - 1, Zero())
    decreases Length - 1 - i
  {
    if i < Length - 1 {
      ZeroDigitRow(a, b, i);
      ZeroRowsSkip(a, b, i + 1);
    } else {
      ZeroPrefix(b, i);
      ZeroTotal(a, b, i);
    }
  }

  /** Row i below the top of two times fifty billion multiplies by a zero
      digit: the total stays zero and the rows from i on answer what the
      rows from i + 1 on do. */
  lemma ZeroDigitRow(a: Mpi, b: Mpi, i: nat)
    requires Canonical(a) && Canonical(b)
    requires i < Length - 1 && b.data[i] == 0
    requires forall k :: 0 <= k < Length - 1 ==> b.data[k] == 0
    ensures Magnitude(Zero()) == (Magnitude(a) * Mag(b.data[..i])) % Bound
    ensures Magnitude(Zero()) == (Magnitude(a) * Mag(b.data[..i + 1])) % Bound
    ensures MulRows(a, b, i, Zero()) == MulRows(a, b, i + 1, Zero())
  {
    ZeroPrefix(b, i);
    ZeroPrefix(b, i + 1);
    ZeroTotal(a, b, i);
    ZeroTotal(a, b, i + 1);
    ZeroDigitProduct(a.data, i);
    EmptyRow(a, b, i);
  }

  /** The top row of two times fifty billion: its only nonzero digit lands
      at index Length and is dropped, and the loop ends with zero. */
  lemma TopRowDropped(a: Mpi, b: Mpi)
    requires Canonical(a) && Value(a) == 2 && a.sign == Plus
    requires Canonical(b) && Value(b) == 50_000_000_000
    requires b.data[Length - 1] == 5 && Mag(b.data[..Length - 1]) == 0
    ensures Magnitude(Zero()) == (Magnitude(a) * Mag(b.data[..Length - 1])) % Bound
    ensures MulRows(a, b, Length - 1, Zero()) == Result(Ok, Zero())
  {
    ZeroTotal(a, b, Length - 1);
    TenProduct(a.data);
    EmptyRow(a, b, Length - 1);
    assert Magnitude(Zero()) == (Magnitude(a) * Mag(b.data[..Length])) % Bound by {
      FullPrefix(b);
    }
    assert MulRows(a, b, Length, Zero()) == Result(Ok, Zero());
  }

  /** Two, digit by digit. */
  lemma TwoDigits(a: Mpi)
    requires Canonical(a) && Value(a) == 2
    ensures a.sign == Plus && a.data[0] == 2
  {
    CanonicalUnique(a, Small(2));
  }

  /** Fifty billion, digit by digit. */
  lemma HalfBoundDigits(b: Mpi)
    requires Canonical(b) && Value(b) == 50_000_000_000
    ensures b.sign == Plus && b.data[Length - 1] == 5
    ensures forall k :: 0 <= k < Length - 1 ==> b.data[k] == 0
  {
    CanonicalUnique(b, HalfBound());
  }

  /** The library's multiplication is not commutative outside its exact
      range: fifty billion times two overflows, while two times fifty
      billion drops the top digit and answers zero. The corrected
      multiplication reports overflow both ways. */
  lemma MulDropsDigit(a: Mpi, b: Mpi)
    requires Canonical(a) && Value(a) == 2
    requires Canonical(b) && Value(b) == 50_000_000_000
    ensures Value(a) * Value(b) == Bound
    ensures Mul(b, a) == Result(Overflow, Zero())
    ensures Mul(a, b) == Result(Ok, Zero())
    ensures MulCorrected(b, a) == Result(Overflow, Zero())
    ensures MulCorrected(a, b) == Result(Overflow, Zero())
  {
    TwoDigits(a);
    HalfBoundDigits(b);
    TopRowCarries(b, a);
    TopDigitLost(a, b);
  }

  /** The library's multiplication of two by fifty billion answers zero. */
  lemma TopDigitLost(a: Mpi, b: Mpi)
    requires Canonical(a) && Value(a) == 2 && a.sign == Plus
    requires Canonical(b) && Value(b) == 50_000_000_000 && b.sign == Plus
    requires b.data[Length - 1] == 5 && forall k :: 0 <= k < Length - 1 ==> b.data[k] == 0
    ensures Mul(a, b) == Result(Ok, Zero())
  {
    ZeroRowsSkip(a, b, 0);
    ZeroPrefix(b, Length - 1);
    TopRowDropped(a, b);
    assert !IsZero(a) && !IsZero(b) && Cmp(a, One()) != 0 && Cmp(b, One()) != 0;
    assert Mul(a, b) == MulSameSign(a, b) == MulRows(a, b, 0, Zero());
  }
}
