/** Schoolbook multiplication. Row i multiplies the whole of `a` by digit i
    of `b` and writes digit j of that row at index i + j; writes at an index
    of Length or more are rejected by SetData and so silently dropped. Only
    a carry out of a row, or an overflowing accumulation, is reported. */
module Multiply {
  import opened MpiCore
  import opened Accessors
  import opened Arith

  /** The sign-keeping truncation the multiplication applies to its exact
      product: the magnitude is reduced modulo 10^Length. */
  function Wrap(v: int): int {
    if v >= 0 then v % Bound else -((-v) % Bound)
  }

  /** One step of the inner row loop, as integer arithmetic. */
  lemma MulDigitStep(a0: int, m: int, d: int, h: int, w: int, rm: int, p: int, c: int)
    requires IsDigit(a0) && IsDigit(d) && 0 <= h <= 9 && w == a0 * d + h
    requires rm + p * c == m * d + w / 10
    ensures 0 <= w / 10 <= 9
    ensures w % 10 + 10 * rm + (10 * p) * c == (a0 + 10 * m) * d + h
  {
    assert 0 <= a0 * d <= 81 by {
      assert a0 * d <= 9 * d;
    }
    assert (10 * p) * c == 10 * (p * c);
    assert (a0 + 10 * m) * d == a0 * d + 10 * (m * d);
  }

  /** The carry out of one digit product is itself a digit. */
  lemma DigitCarry(a0: int, d: int, h: int, w: int)
    requires IsDigit(a0) && IsDigit(d) && 0 <= h <= 9 && w == a0 * d + h
    ensures 0 <= w / 10 <= 9
  {
    MulMono(a0, 9, d);
    MulMono(d, 9, 9);
  }

  /** The inner row loop: digits of a * d + h and the carry left over. */
  function MulDigit(a: seq<int>, d: int, h: int): (r: (seq<int>, int))
    requires AllDigits(a) && IsDigit(d) && 0 <= h <= 9
    ensures |r.0| == |a| && AllDigits(r.0) && 0 <= r.1 <= 9
    ensures Mag(r.0) + Pow10(|a|) * r.1 == Mag(a) * d + h
    decreases |a|
  {
    if |a| == 0 then ([], h)
    else
      var w := a[0] * d + h;
      DigitCarry(a[0], d, h, w);
      AllDigitsSlice(a, 1, |a|);
      var rest := MulDigit(a[1..], d, w / 10);
      assert ([w % 10] + rest.0)[1..] == rest.0;
      MulDigitStep(a[0], Mag(a[1..]), d, h, w, Mag(rest.0), Pow10(|a| - 1), rest.1);
      ([w % 10] + rest.0, rest.1)
  }

  /** A row placed at offset i: its digits from index Length - i upwards
      fall outside the value. */
  function Placed(ds: seq<int>, i: nat): (x: Mpi)
    requires |ds| == Length && AllDigits(ds) && i < Length
    ensures Canonical(x) && x.sign == Plus
    ensures Magnitude(x) == Pow10(i) * Mag(ds[..Length - i])
    ensures Mag(ds) == Mag(ds[..Length - i]) + Pow10(Length - i) * Mag(ds[Length - i..])
  {
    AllDigitsSlice(ds, 0, Length - i);
    var x := Mpi(Zeros(i) + ds[..Length - i], Plus);
    assert AllDigits(x.data) by {
      forall k | 0 <= k < Length ensures IsDigit(x.data[k]) {
        if k >= i {
          assert x.data[k] == ds[..Length - i][k - i];
        }
      }
    }
    MagAppend(Zeros(i), ds[..Length - i]);
    assert ds == ds[..Length - i] + ds[Length - i..];
    MagAppend(ds[..Length - i], ds[Length - i..]);
    x
  }

  /** Modular bookkeeping of one accumulation step. */
  lemma ModStep(u: int, v: int, k: int)
    ensures (u % Bound + v) % Bound == (u + v + Bound * k) % Bound
  {
    var q := u / Bound;
    assert u == Bound * q + u % Bound;
    assert u + v + Bound * k == (u % Bound + v) + Bound * (q + k);
  }

  lemma MulMono(x: int, y: int, z: int)
    requires 0 <= x <= y && 0 <= z
    ensures 0 <= x * z <= y * z
  {
    assert (y - x) * z >= 0;
  }

  /** The arithmetic of one row: the running total stays congruent to the
      partial product, and is exact while the full product fits. Here
      A * bi == lo + q * hi splits the row at the width boundary. */
  lemma RowArith(A: int, bi: int, p: int, q: int, lo: int, hi: int,
                 Mbi: int, Mb: int, acc: int, xm: int)
    requires A >= 0 && bi >= 0 && p >= 1 && q >= 1 && lo >= 0 && hi >= 0 && Mbi >= 0
    requires p * q == Bound && xm == p * lo && A * bi == lo + q * hi
    requires acc == (A * Mbi) % Bound
    requires Mbi + bi * p <= Mb
    ensures (acc + xm) % Bound == (A * (Mbi + bi * p)) % Bound
    ensures A * Mb < Bound ==> acc + xm == A * (Mbi + bi * p) < Bound
  {
    var ab, am := A * bi, A * Mbi;
    RowSplit(ab, p, q, lo, hi, xm);
    RowDistributes(A, Mbi, bi, p, ab, am);
    ModStep(am, xm, hi);
    if A * Mb < Bound {
      RowFits(A, Mbi, bi, p, Mb, ab, am);
      MulMono(0, lo, p);
    }
  }

  /** The row product split at the width boundary, scaled by p. */
  lemma RowSplit(ab: int, p: int, q: int, lo: int, hi: int, xm: int)
    requires p * q == Bound && xm == p * lo && ab == lo + q * hi
    ensures ab * p == xm + Bound * hi
  {
    assert (lo + q * hi) * p == p * lo + (p * q) * hi;
  }

  /** A times the extended partial multiplier, split into its two parts. */
  lemma RowDistributes(A: int, Mbi: int, bi: int, p: int, ab: int, am: int)
    requires ab == A * bi && am == A * Mbi
    ensures A * (Mbi + bi * p) == am + ab * p
  {
    assert A * (bi * p) == (A * bi) * p;
  }

  /** Below a product that fits, both parts of a row are non-negative and
      their sum fits. */
  lemma RowFits(A: int, Mbi: int, bi: int, p: int, Mb: int, ab: int, am: int)
    requires A >= 0 && bi >= 0 && p >= 1 && Mbi >= 0
    requires ab == A * bi && am == A * Mbi
    requires Mbi + bi * p <= Mb && A * Mb < Bound
    ensures 0 <= am && 0 <= ab * p && A * (Mbi + bi * p) < Bound
  {
    MulMono(Mbi + bi * p, Mb, A);
    MulMono(0, Mbi, A);
    MulMono(0, bi, A);
    MulMono(0, p, ab);
  }

  /** A carry out of a row means the full product does not fit. */
  lemma RowCarryArith(A: int, bi: int, p: int, Mbi: int, Mb: int)
    requires A >= 0 && bi >= 0 && p >= 1 && Mbi >= 0
    requires A * bi >= Bound && Mbi + bi * p <= Mb
    ensures A * Mb >= Bound
  {
    MulMono(Mbi + bi * p, Mb, A);
    assert A * (Mbi + bi * p) == A * Mbi + A * bi * p;
    MulMono(0, Mbi, A);
    MulMono(0, bi, A);
    MulMono(1, p, A * bi);
  }

  lemma PrefixAtMost(s: seq<int>, i: nat)
    requires AllDigits(s) && i <= |s|
    ensures 0 <= Mag(s[..i]) <= Mag(s)
  {
    assert s == s[..i] + s[i..];
    MagAppend(s[..i], s[i..]);
    AllDigitsSlice(s, 0, i);
    AllDigitsSlice(s, i, |s|);
    MagBounds(s[..i]);
    MagBounds(s[i..]);
    MulMono(0, Pow10(i), Mag(s[i..]));
  }

  /** Row i of the schoolbook loop, in terms of the values involved. */
  lemma RowFacts(a: Mpi, b: Mpi, i: nat, acc: Mpi, ds: seq<int>, x: Mpi)
    requires Canonical(a) && Canonical(b) && Canonical(acc) && i < Length
    requires Magnitude(acc) == (Magnitude(a) * Mag(b.data[..i])) % Bound
    requires |ds| == Length && AllDigits(ds) && Mag(ds) == Magnitude(a) * b.data[i]
    requires x == Placed(ds, i)
    ensures Magnitude(acc) + Magnitude(x) < Bound ==>
              Magnitude(acc) + Magnitude(x) == (Magnitude(a) * Mag(b.data[..i + 1])) % Bound
    ensures Magnitude(a) * Magnitude(b) < Bound ==> Magnitude(acc) + Magnitude(x) < Bound
  {
    var A, bi, Mbi := Magnitude(a), b.data[i], Mag(b.data[..i]);
    var p, q := Pow10(i), Pow10(Length - i);
    var lo, hi := Mag(ds[..Length - i]), Mag(ds[Length - i..]);
    assert Mag(b.data[..i + 1]) == Mbi + bi * p by {
      MagSnoc(b.data, i + 1);
    }
    assert Mbi + bi * p <= Magnitude(b) by {
      PrefixAtMost(b.data, i + 1);
    }
    assert Mbi >= 0 by {
      PrefixAtMost(b.data, i);
    }
    assert p * q == Bound by {
      Pow10Add(i, Length - i);
      Pow10Length();
    }
    assert lo >= 0 && hi >= 0 by {
      AllDigitsSlice(ds, 0, Length - i);
      AllDigitsSlice(ds, Length - i, Length);
      MagBounds(ds[..Length - i]);
      MagBounds(ds[Length - i..]);
    }
    assert A * bi == lo + q * hi;
    RowArith(A, bi, p, q, lo, hi, Mbi, Magnitude(b), Magnitude(acc), Magnitude(x));
    SmallMod(Magnitude(acc) + Magnitude(x));
  }

  /** The sum of two plus-signed values, as magnitudes. */
  lemma PlusSum(x: Mpi, y: Mpi)
    requires Canonical(x) && Canonical(y) && x.sign == Plus && y.sign == Plus
    ensures Add(x, y).status == Ok <==> Magnitude(x) + Magnitude(y) < Bound
    ensures Add(x, y).status == Ok ==>
              Add(x, y).value.sign == Plus && Magnitude(Add(x, y).value) == Magnitude(x) + Magnitude(y)
  {
  }

  lemma SmallMod(v: int)
    requires v >= 0
    ensures v < Bound ==> v % Bound == v
  {
  }

  /** A row that carries out of the top digit. */
  lemma RowCarryFacts(a: Mpi, b: Mpi, i: nat, ds: seq<int>, h: int)
    requires Canonical(a) && Canonical(b) && i < Length
    requires |ds| == Length && AllDigits(ds) && h >= 1
    requires Mag(ds) + Pow10(Length) * h == Magnitude(a) * b.data[i]
    ensures Magnitude(a) * Magnitude(b) >= Bound
  {
    var A, bi, Mbi, p := Magnitude(a), b.data[i], Mag(b.data[..i]), Pow10(i);
    assert Mag(b.data[..i + 1]) == Mbi + bi * p by {
      MagSnoc(b.data, i + 1);
    }
    assert Mbi >= 0 && Mbi + bi * p <= Magnitude(b) by {
      PrefixAtMost(b.data, i);
      PrefixAtMost(b.data, i + 1);
    }
    assert A * bi >= Bound by {
      Pow10Length();
      MagBounds(ds);
      MulMono(1, h, Bound);
    }
    RowCarryArith(A, bi, p, Mbi, Magnitude(b));
  }

  /** All eleven digits of b weigh its magnitude. */
  lemma FullPrefix(b: Mpi)
    requires Canonical(b)
    ensures Mag(b.data[..Length]) == Magnitude(b)
  {
    assert b.data[..Length] == b.data;
  }

  /** The outer row loop, from row i on, with the running total `acc`. */
  function MulRows(a: Mpi, b: Mpi, i: nat, acc: Mpi): (r: Result)
    requires Canonical(a) && Canonical(b) && Canonical(acc) && acc.sign == Plus
    requires i <= Length
    requires Magnitude(acc) == (Magnitude(a) * Mag(b.data[..i])) % Bound
    ensures Canonical(r.value) && r.value.sign == Plus
    ensures r.status == Ok || r == Result(Overflow, Zero())
    ensures r.status == Ok ==> Magnitude(r.value) == (Magnitude(a) * Magnitude(b)) % Bound
    ensures Magnitude(a) * Magnitude(b) < Bound ==> r.status == Ok
    decreases Length - i
  {
    if i == Length then
      FullPrefix(b);
      Result(Ok, acc)
    else
      var next := NextRow(a, b, i, acc);
      if next.status != Ok then next
      else MulRows(a, b, i + 1, next.value)
  }

  /** Row i of the outer loop: the digit product, its carry check, and its
      addition, shifted into place, to the running total. */
  function NextRow(a: Mpi, b: Mpi, i: nat, acc: Mpi): (r: Result)
    requires Canonical(a) && Canonical(b) && Canonical(acc) && acc.sign == Plus
    requires i < Length
    requires Magnitude(acc) == (Magnitude(a) * Mag(b.data[..i])) % Bound
    ensures Canonical(r.value) && r.value.sign == Plus
    ensures r.status == Ok || r == Result(Overflow, Zero())
    ensures r.status == Ok ==> Magnitude(r.value) == (Magnitude(a) * Mag(b.data[..i + 1])) % Bound
    ensures Magnitude(a) * Magnitude(b) < Bound ==> r.status == Ok
  {
    var row := MulDigit(a.data, b.data[i], 0);
    if row.1 != 0 then
      RowCarryFacts(a, b, i, row.0, row.1);
      Result(Overflow, Zero())
    else
      var x := Placed(row.0, i);
      RowFacts(a, b, i, acc, row.0, x);
      PlusSum(acc, x);
      var s := Add(acc, x);
      if s.status != Ok then Result(s.status, Zero())
      else s
  }


  /** The product of a non-negative x and a non-positive yn, against the
      product of magnitudes. */
  lemma ProductFlip(x: int, y: int, yn: int)
    requires x >= 0 && y >= 0 && yn == -y
    ensures 0 <= x * y && x * yn == -(x * y) && yn * x == -(x * y)
    ensures 0 <= Wrap(x * y) && Wrap(x * yn) == -Wrap(x * y) && Wrap(yn * x) == -Wrap(x * y)
  {
    MulMono(0, x, y);
  }

  /** The products the multiplication answers without its digit loop. */
  lemma ShortCutProduct(x: int, y: int)
    requires -Bound < x < Bound && -Bound < y < Bound
    ensures x == 0 || y == 0 ==> x * y == 0 && Wrap(x * y) == 0
    ensures x == 1 ==> x * y == y && Wrap(x * y) == y
    ensures y == 1 ==> x * y == x && Wrap(x * y) == x
  {
    WrapExact(x);
    WrapExact(y);
  }

  /** Negating the product of x and -y gives the product of x and y. */
  lemma NegatedProduct(x: int, y: int, ya: int, r: Result)
    requires x > 0 && y < 0 && ya == -y
    requires Canonical(r.value) && (r.status == Ok || r == Result(Overflow, Zero()))
    requires r.status == Ok ==> Value(r.value) == Wrap(x * ya)
    requires -Bound < x * ya < Bound ==> r.status == Ok && Value(r.value) == x * ya
    ensures var f := Result(r.status, Negated(r.value));
            && Canonical(f.value)
            && (f.status == Ok || f == Result(Overflow, Zero()))
            && (f.status == Ok ==> Value(f.value) == Wrap(x * y) == Wrap(y * x))
            && (-Bound < x * y < Bound ==> f.status == Ok && Value(f.value) == x * y == y * x)
  {
    ProductFlip(x, ya, y);
  }

  /** Operands of equal sign multiply like their magnitudes. */
  lemma SameSignProduct(x: int, y: int, ma: int, mb: int)
    requires ma >= 0 && mb >= 0
    requires (x == ma && y == mb) || (x == -ma && y == -mb)
    ensures x * y == ma * mb && 0 <= ma * mb
    ensures Wrap(x * y) == (ma * mb) % Bound
    ensures ma * mb < Bound ==> (ma * mb) % Bound == ma * mb
  {
    MulMono(0, ma, mb);
    if x == -ma {
      assert (-ma) * (-mb) == ma * mb;
    }
  }

  /** Multiplication. A zero operand gives zero; an operand equal to one
      gives a copy of the other; the sign is plus exactly when the operand
      signs agree. A successful result is the product truncated to eleven
      digits, and it is the exact product whenever that fits. */
  function Mul(a: Mpi, b: Mpi): (r: Result)
    requires Canonical(a) && Canonical(b)
    ensures Canonical(r.value)
    ensures r.status == Ok || r == Result(Overflow, Zero())
    ensures r.status == Ok ==> Value(r.value) == Wrap(Value(a) * Value(b))
    ensures -Bound < Value(a) * Value(b) < Bound ==>
              r.status == Ok && Value(r.value) == Value(a) * Value(b)
    decreases Neg(a) + Neg(b), 1
  {
    if IsZero(a) || IsZero(b) then
      ShortCutProduct(Value(a), Value(b));
      Result(Ok, Zero())
    else if Cmp(a, One()) == 0 then
      ShortCutProduct(Value(a), Value(b));
      Result(Ok, Copy(b))
    else if Cmp(b, One()) == 0 then
      ShortCutProduct(Value(a), Value(b));
      Result(Ok, Copy(a))
    else if a.sign == Plus && b.sign == Minus then
      MulMixed(a, b)
    else if a.sign == Minus && b.sign == Plus then
      var r := MulMixed(b, a);
      assert Value(b) * Value(a) == Value(a) * Value(b);
      r
    else
      MulSameSign(a, b)
  }

  /** A positive a times a negative b: the negated product of a and the
      magnitude of b. */
  function MulMixed(a: Mpi, b: Mpi): (r: Result)
    requires Canonical(a) && Canonical(b) && a.sign == Plus && b.sign == Minus && !IsZero(a)
    ensures Canonical(r.value)
    ensures r.status == Ok || r == Result(Overflow, Zero())
    ensures r.status == Ok ==> Value(r.value) == Wrap(Value(a) * Value(b))
    ensures -Bound < Value(a) * Value(b) < Bound ==>
              r.status == Ok && Value(r.value) == Value(a) * Value(b)
    decreases Neg(a) + Neg(b), 0
  {
    var r := Mul(a, Abs(b));
    NegatedProduct(Value(a), Value(b), Value(Abs(b)), r);
    Result(r.status, Negated(r.value))
  }

  /** Operands of equal sign: the schoolbook row loop on the magnitudes. */
  function MulSameSign(a: Mpi, b: Mpi): (r: Result)
    requires Canonical(a) && Canonical(b) && a.sign == b.sign
    ensures Canonical(r.value)
    ensures r.status == Ok || r == Result(Overflow, Zero())
    ensures r.status == Ok ==> Value(r.value) == Wrap(Value(a) * Value(b))
    ensures -Bound < Value(a) * Value(b) < Bound ==>
              r.status == Ok && Value(r.value) == Value(a) * Value(b)
  {
    SameSignProduct(Value(a), Value(b), Magnitude(a), Magnitude(b));
    assert Mag(b.data[..0]) == 0;
    MulRows(a, b, 0, Zero())
  }

  /** Multiplication distributes over addition whenever nothing overflows. */
  lemma MulDistributes(a: Mpi, b: Mpi, c: Mpi)
    requires Canonical(a) && Canonical(b) && Canonical(c)
    requires Add(b, c).status == Ok
    requires -Bound < Value(a) * Value(b) < Bound && -Bound < Value(a) * Value(c) < Bound
    requires -Bound < Value(a) * (Value(b) + Value(c)) < Bound
    ensures Mul(a, Add(b, c).value).status == Ok
    ensures Add(Mul(a, b).value, Mul(a, c).value).status == Ok
    ensures Mul(a, Add(b, c).value).value == Add(Mul(a, b).value, Mul(a, c).value).value
  {
    var s := Add(b, c).value;
    var x, y, z := Value(a), Value(b), Value(c);
    var xy, xz, xs := x * y, x * z, x * Value(s);
    Distributes(x, y, z, Value(s));
    ExactProduct(a, b, xy);
    ExactProduct(a, c, xz);
    ExactProduct(a, s, xs);
    SumOfProducts(Mul(a, b).value, Mul(a, c).value, Mul(a, s).value, xy, xz);
  }

  /** Two exact products add up to a third value exactly when their sum is
      its value. */
  lemma SumOfProducts(ab: Mpi, ac: Mpi, whole: Mpi, xy: int, xz: int)
    requires Canonical(ab) && Canonical(ac) && Canonical(whole)
    requires Value(ab) == xy && Value(ac) == xz && Value(whole) == xy + xz
    requires -Bound < xy + xz < Bound
    ensures Add(ab, ac).status == Ok && Add(ab, ac).value == whole
  {
    CanonicalUnique(Add(ab, ac).value, whole);
  }

  /** A product that fits is computed exactly. */
  lemma ExactProduct(a: Mpi, b: Mpi, v: int)
    requires Canonical(a) && Canonical(b) && v == Value(a) * Value(b) && -Bound < v < Bound
    ensures Mul(a, b).status == Ok && Value(Mul(a, b).value) == v
  {
  }

  lemma Distributes(x: int, y: int, z: int, s: int)
    requires s == y + z
    ensures x * s == x * y + x * z
  {
  }

  /** Multiplication is commutative on its exact range. */
  lemma MulCommutes(a: Mpi, b: Mpi)
    requires Canonical(a) && Canonical(b)
    requires -Bound < Value(a) * Value(b) < Bound
    ensures Mul(a, b) == Mul(b, a)
  {
    assert Value(a) * Value(b) == Value(b) * Value(a);
    CanonicalUnique(Mul(a, b).value, Mul(b, a).value);
  }

  /** Truncation is the identity on the representable range. */
  lemma WrapExact(v: int)
    requires -Bound < v < Bound
    ensures Wrap(v) == v
  {
  }
}
