/** Addition, subtraction and comparison. Each operation dispatches on the
    pair of signs and ends in one unsigned digit loop: a carry loop, a
    borrow loop, or a most-significant-first digit scan. */
module Arith {
  import opened MpiCore
  import opened Accessors

  /** One digit of the carry loop: the column sum w is the digit kept plus
      ten times the carry passed on. */
  lemma DigitStep(w: int, digit: int, next: int, x0: int, y0: int, c: int,
                  mx: int, my: int, mr: int, p: int, top: int)
    requires w == x0 + y0 + c && w == 10 * next + digit
    requires mr + p * top == mx + my + next
    ensures (digit + 10 * mr) + (10 * p) * top == (x0 + 10 * mx) + (y0 + 10 * my) + c
  {
    assert (10 * p) * top == 10 * (p * top);
  }

  /** The carry loop of the unsigned addition, least significant digit
      first. Returns the sum digits and the carry out of the top digit. */
  function AddDigits(a: seq<int>, b: seq<int>, carry: int): (r: (seq<int>, int))
    requires |a| == |b| && AllDigits(a) && AllDigits(b) && 0 <= carry <= 1
    ensures |r.0| == |a| && AllDigits(r.0) && 0 <= r.1 <= 1
    ensures Mag(r.0) + Pow10(|a|) * r.1 == Mag(a) + Mag(b) + carry
    decreases |a|
  {
    if |a| == 0 then ([], carry)
    else
      var w := a[0] + b[0] + carry;
      AllDigitsSlice(a, 1, |a|);
      AllDigitsSlice(b, 1, |b|);
      var rest := AddDigits(a[1..], b[1..], w / 10);
      assert ([w % 10] + rest.0)[1..] == rest.0;
      DigitStep(w, w % 10, w / 10, a[0], b[0], carry, Mag(a[1..]), Mag(b[1..]),
        Mag(rest.0), Pow10(|a| - 1), rest.1);
      ([w % 10] + rest.0, rest.1)
  }

  /** One digit of the borrow loop: the column difference w is the digit
      kept less ten times the borrow passed on. */
  lemma BorrowStep(w: int, digit: int, out: int, x0: int, y0: int, b: int,
                   mx: int, my: int, mr: int, p: int, top: int)
    requires w == x0 - y0 - b && w == digit - 10 * out
    requires mr - p * top == mx - my - out
    ensures (digit + 10 * mr) - (10 * p) * top == (x0 + 10 * mx) - (y0 + 10 * my) - b
  {
    assert (10 * p) * top == 10 * (p * top);
  }

  /** The borrow loop of the unsigned subtraction. Returns the difference
      digits and the borrow left after the top digit. */
  function SubDigits(a: seq<int>, b: seq<int>, borrow: int): (r: (seq<int>, int))
    requires |a| == |b| && AllDigits(a) && AllDigits(b) && 0 <= borrow <= 1
    ensures |r.0| == |a| && AllDigits(r.0) && 0 <= r.1 <= 1
    ensures Mag(r.0) - Pow10(|a|) * r.1 == Mag(a) - Mag(b) - borrow
    decreases |a|
  {
    if |a| == 0 then ([], borrow)
    else
      var w := a[0] - b[0] - borrow;
      var d := if w < 0 then w + 10 else w;
      AllDigitsSlice(a, 1, |a|);
      AllDigitsSlice(b, 1, |b|);
      var out := if w < 0 then 1 else 0;
      var rest := SubDigits(a[1..], b[1..], out);
      assert ([d] + rest.0)[1..] == rest.0;
      BorrowStep(w, d, out, a[0], b[0], borrow, Mag(a[1..]), Mag(b[1..]),
        Mag(rest.0), Pow10(|a| - 1), rest.1);
      ([d] + rest.0, rest.1)
  }

  /** A higher leading digit outweighs any lower part. */
  lemma HigherLeadingDigit(x: int, y: int, dx: int, dy: int, p: int)
    requires 0 <= x < p && 0 <= y < p && dx > dy
    ensures x + dx * p > y + dy * p
  {
    var k := dx - dy;
    assert dx * p == dy * p + k * p;
    assert k * p >= p by {
      assert (k - 1) * p >= 0;
    }
  }

  /** Comparing the top digit of two prefixes decides between them unless
      the digits are equal. */
  lemma LeadingDigit(a: seq<int>, b: seq<int>, i: nat)
    requires |a| == |b| && 0 < i <= |a| && AllDigits(a) && AllDigits(b)
    ensures a[i - 1] > b[i - 1] ==> Mag(a[..i]) > Mag(b[..i])
    ensures a[i - 1] < b[i - 1] ==> Mag(a[..i]) < Mag(b[..i])
    ensures a[i - 1] == b[i - 1] ==> Mag(a[..i]) - Mag(b[..i]) == Mag(a[..i - 1]) - Mag(b[..i - 1])
  {
    MagSnoc(a, i);
    MagSnoc(b, i);
    AllDigitsSlice(a, 0, i - 1);
    AllDigitsSlice(b, 0, i - 1);
    MagBounds(a[..i - 1]);
    MagBounds(b[..i - 1]);
    var p := Pow10(i - 1);
    if a[i - 1] > b[i - 1] {
      HigherLeadingDigit(Mag(a[..i - 1]), Mag(b[..i - 1]), a[i - 1], b[i - 1], p);
    }
    if a[i - 1] < b[i - 1] {
      HigherLeadingDigit(Mag(b[..i - 1]), Mag(a[..i - 1]), b[i - 1], a[i - 1], p);
    }
  }

  /** The digit scan of the comparison, from index i - 1 down to 0. */
  function CmpDigits(a: seq<int>, b: seq<int>, i: nat): (r: int)
    requires |a| == |b| && i <= |a| && AllDigits(a) && AllDigits(b)
    ensures r == 1 <==> Mag(a[..i]) > Mag(b[..i])
    ensures r == 0 <==> Mag(a[..i]) == Mag(b[..i])
    ensures r == -1 <==> Mag(a[..i]) < Mag(b[..i])
    decreases i
  {
    if i == 0 then 0
    else
      LeadingDigit(a, b, i);
      if a[i - 1] > b[i - 1] then 1
      else if a[i - 1] < b[i - 1] then -1
      else CmpDigits(a, b, i - 1)
  }

  /** Three-way comparison: 1, 0 or -1 as a is greater than, equal to or
      less than b. Differing signs decide at once; two negatives compare
      their swapped magnitudes. */
  function Cmp(a: Mpi, b: Mpi): (r: int)
    requires Canonical(a) && Canonical(b)
    ensures r == 1 <==> Value(a) > Value(b)
    ensures r == 0 <==> Value(a) == Value(b)
    ensures r == -1 <==> Value(a) < Value(b)
    decreases Neg(a) + Neg(b)
  {
    if a.sign == Plus && b.sign == Minus then 1
    else if a.sign == Minus && b.sign == Plus then -1
    else if a.sign == Minus && b.sign == Minus then Cmp(Abs(b), Abs(a))
    else
      assert a.data[..Length] == a.data && b.data[..Length] == b.data;
      CmpDigits(a.data, b.data, Length)
  }

  /** The unsigned addition of two non-negative values. */
  function UAdd(a: Mpi, b: Mpi): (r: Result)
    requires Canonical(a) && Canonical(b) && a.sign == Plus && b.sign == Plus
    ensures Canonical(r.value) && r.value.sign == Plus
    ensures r.status == Ok <==> Value(a) + Value(b) < Bound
    ensures r.status == Ok ==> Value(r.value) == Value(a) + Value(b)
    ensures r.status != Ok ==> r == Result(Overflow, Zero())
  {
    var s := AddDigits(a.data, b.data, 0);
    Pow10Length();
    MagBounds(s.0);
    if s.1 != 0 then Result(Overflow, Zero())
    else Result(Ok, Mpi(s.0, Plus))
  }

  /** Subtracting a smaller non-negative value leaves no final borrow. */
  lemma NoBorrow(x: Mpi, y: Mpi)
    requires Canonical(x) && Canonical(y) && x.sign == Plus && y.sign == Plus
    requires Value(x) >= Value(y)
    ensures SubDigits(x.data, y.data, 0).1 == 0
    ensures Mag(SubDigits(x.data, y.data, 0).0) == Value(x) - Value(y)
  {
    Pow10Length();
    MagBounds(SubDigits(x.data, y.data, 0).0);
  }

  /** The unsigned subtraction of two non-negative values: the larger
      magnitude is always the minuend, so the final borrow is always zero
      and the status is always Ok. */
  function USub(a: Mpi, b: Mpi): (r: Result)
    requires Canonical(a) && Canonical(b) && a.sign == Plus && b.sign == Plus
    ensures r.status == Ok
    ensures Canonical(r.value) && Value(r.value) == Value(a) - Value(b)
  {
    if Cmp(a, b) >= 0 then
      var s := SubDigits(a.data, b.data, 0);
      NoBorrow(a, b);
      if s.1 != 0 then Result(Overflow, Zero())
      else Result(Ok, SetSign(Mpi(s.0, Plus), Plus).value)
    else
      var s := SubDigits(b.data, a.data, 0);
      NoBorrow(b, a);
      if s.1 != 0 then Result(Overflow, Zero())
      else Result(Ok, SetSign(Mpi(s.0, Plus), Minus).value)
  }

  /** Addition. The status is Overflow exactly when the sum does not fit in
      eleven digits, which only two operands of the same sign can cause;
      the output then holds zero. */
  function Add(a: Mpi, b: Mpi): (r: Result)
    requires Canonical(a) && Canonical(b)
    ensures Canonical(r.value)
    ensures r.status == Ok <==> -Bound < Value(a) + Value(b) < Bound
    ensures r.status == Ok ==> Value(r.value) == Value(a) + Value(b)
    ensures r.status != Ok ==> r == Result(Overflow, Zero())
    decreases Neg(a) + Neg(b)
  {
    if a.sign == Plus && b.sign == Minus then Sub(a, Abs(b))
    else if a.sign == Minus && b.sign == Plus then Sub(b, Abs(a))
    else if a.sign == Minus && b.sign == Minus then
      var r := Add(Abs(a), Abs(b));
      Result(r.status, Negated(r.value))
    else UAdd(a, b)
  }

  /** Subtraction. The status is Overflow exactly when the difference does
      not fit, which only operands of opposite signs can cause. */
  function Sub(a: Mpi, b: Mpi): (r: Result)
    requires Canonical(a) && Canonical(b)
    ensures Canonical(r.value)
    ensures r.status == Ok <==> -Bound < Value(a) - Value(b) < Bound
    ensures r.status == Ok ==> Value(r.value) == Value(a) - Value(b)
    ensures r.status != Ok ==> r == Result(Overflow, Zero())
    decreases Neg(a) + Neg(b)
  {
    if a.sign == Plus && b.sign == Minus then Add(a, Abs(b))
    else if a.sign == Minus && b.sign == Plus then
      var r := Add(b, Abs(a));
      Result(r.status, Negated(r.value))
    else if a.sign == Minus && b.sign == Minus then Sub(Abs(b), Abs(a))
    else USub(a, b)
  }

  function Inc(n: Mpi): (r: Result)
    requires Canonical(n)
    ensures Canonical(r.value)
    ensures r.status == Ok <==> Value(n) < Bound - 1
    ensures r.status == Ok ==> Value(r.value) == Value(n) + 1
    ensures r.status != Ok ==> r == Result(Overflow, Zero())
  {
    Add(n, One())
  }

  function Dec(n: Mpi): (r: Result)
    requires Canonical(n)
    ensures Canonical(r.value)
    ensures r.status == Ok <==> Value(n) > -(Bound - 1)
    ensures r.status == Ok ==> Value(r.value) == Value(n) - 1
    ensures r.status != Ok ==> r == Result(Overflow, Zero())
  {
    Sub(n, One())
  }

  /** Subtracting b undoes a successful addition of b. */
  lemma SubUndoesAdd(a: Mpi, b: Mpi)
    requires Canonical(a) && Canonical(b)
    requires Add(a, b).status == Ok
    ensures Sub(Add(a, b).value, b) == Result(Ok, a)
  {
    var s := Add(a, b).value;
    CanonicalUnique(Sub(s, b).value, a);
  }

  /** Addition is commutative, statuses included. */
  lemma AddCommutes(a: Mpi, b: Mpi)
    requires Canonical(a) && Canonical(b)
    ensures Add(a, b) == Add(b, a)
  {
    if Add(a, b).status == Ok {
      CanonicalUnique(Add(a, b).value, Add(b, a).value);
    }
  }

  /** Decrementing undoes a successful increment. */
  lemma DecUndoesInc(n: Mpi)
    requires Canonical(n)
    requires Inc(n).status == Ok
    ensures Dec(Inc(n).value) == Result(Ok, n)
  {
    CanonicalUnique(Dec(Inc(n).value).value, n);
  }

  /** Comparison reports equality exactly when the difference is zero. */
  lemma CmpEqualIffSubZero(a: Mpi, b: Mpi)
    requires Canonical(a) && Canonical(b)
    ensures Cmp(a, b) == 0 <==> Sub(a, b) == Result(Ok, Zero())
  {
    if Cmp(a, b) == 0 {
      CanonicalUnique(Sub(a, b).value, Zero());
    }
  }

  /** Comparison is antisymmetric. */
  lemma CmpAntisymmetric(a: Mpi, b: Mpi)
    requires Canonical(a) && Canonical(b)
    ensures Cmp(a, b) == -Cmp(b, a)
  {
  }

  /** Two all-nines values overflow when added. */
  lemma NinesOverflow()
    ensures Add(FromNat(Bound - 1), FromNat(Bound - 1)) == Result(Overflow, Zero())
  {
  }
}
