/** Validated setters, the zero test, the constructors and copying. */
module Accessors {
  import opened MpiCore

  /** A run of n zero digits. */
  function Zeros(n: nat): (r: seq<int>)
    ensures |r| == n && AllDigits(r) && AllZero(r) && Mag(r) == 0
  {
    var z := seq(n, i => 0);
    MagZero(z);
    z
  }

  /** Writes digit `x` at index `d`. The index is checked first, then the
      digit; a rejected write leaves the value unchanged. The zero-sign rule
      is NOT re-checked here, so a negative value can become a negative zero. */
  function SetData(o: Mpi, d: int, x: int): (r: Result)
    requires WellFormed(o)
    ensures WellFormed(r.value)
    ensures !(0 <= d < Length) ==> r == Result(InvalidDigit, o)
    ensures 0 <= d < Length && !IsDigit(x) ==> r == Result(InvalidAssign, o)
    ensures 0 <= d < Length && IsDigit(x) ==>
              && r.status == Ok
              && r.value.sign == o.sign
              && r.value.data[d] == x
              && (forall i :: 0 <= i < Length && i != d ==> r.value.data[i] == o.data[i])
  {
    if d < 0 || d > Length - 1 then Result(InvalidDigit, o)
    else if x < 0 || x > 9 then Result(InvalidAssign, o)
    else Result(Ok, o.(data := o.data[d := x]))
  }

  /** The zero test: true only for the plus sign with all digits zero. */
  function IsZero(n: Mpi): (r: bool)
    requires WellFormed(n)
    ensures r <==> n.sign == Plus && Value(n) == 0
    ensures Canonical(n) ==> (r <==> Value(n) == 0)
  {
    n.sign != Minus && AllZero(n.data)
  }

  /** Sets the sign flag. Values other than the two flags are rejected, and
      so is marking a (positive) zero negative; a rejected call leaves the
      value unchanged. */
  function SetSign(o: Mpi, s: int): (r: Result)
    requires WellFormed(o)
    ensures WellFormed(r.value)
    ensures s != Plus && s != Minus ==> r == Result(InvalidAssign, o)
    ensures s == Minus && IsZero(o) ==> r == Result(InvalidNumber, o)
    ensures s == Plus || (s == Minus && !IsZero(o)) ==> r == Result(Ok, o.(sign := s))
    ensures Canonical(o) ==> Canonical(r.value)
    ensures Canonical(o) && s == Minus ==> Value(r.value) == -Magnitude(o)
    ensures Canonical(o) && s == Plus ==> Value(r.value) == Magnitude(o)
  {
    if s != Minus && s != Plus then Result(InvalidAssign, o)
    else if IsZero(o) && s == Minus then Result(InvalidNumber, o)
    else Result(Ok, o.(sign := s))
  }

  /** The sign-flip used by every composite operation: SetSign(o, Minus),
      whose status those operations ignore. */
  function Negated(o: Mpi): (r: Mpi)
    requires Canonical(o)
    ensures Canonical(r) && r.data == o.data
    ensures Value(r) == -Magnitude(o)
  {
    SetSign(o, Minus).value
  }

  function Zero(): (r: Mpi)
    ensures Canonical(r) && r.sign == Plus && Value(r) == 0
  {
    SetSign(Mpi(Zeros(Length), Plus), Plus).value
  }

  /** A zero with digit `d` in the lowest place. */
  function Small(d: int): (r: Mpi)
    requires 1 <= d <= 9
    ensures Canonical(r) && r.sign == Plus && Value(r) == d
    ensures r.data[0] == d && forall i :: 1 <= i < Length ==> r.data[i] == 0
  {
    var r := SetData(Zero(), 0, d).value;
    assert r.data == [d] + Zeros(Length - 1);
    MagAppend([d], Zeros(Length - 1));
    assert Mag([d]) == d + 10 * Mag([d][1..]);
    r
  }

  function One(): (r: Mpi)
    ensures Canonical(r) && r.sign == Plus && Value(r) == 1
  {
    Small(1)
  }

  function Two(): (r: Mpi)
    ensures Canonical(r) && r.sign == Plus && Value(r) == 2
  {
    Small(2)
  }

  /** Builds a value from a machine integer. The sign is set on the prior
      content of the target BEFORE the digits are written, so a negative
      `x` written over a positive zero has its minus sign rejected and the
      result is +|x|. INT_MIN is excluded (its negation overflows). */
  function FromInt(prior: Mpi, x: int): (r: Mpi)
    requires WellFormed(prior)
    requires -0x8000_0000 < x < 0x8000_0000
    ensures Canonical(r)
    ensures x >= 0 || !IsZero(prior) ==> Value(r) == x
    ensures x < 0 && IsZero(prior) ==> Value(r) == -x
  {
    var signed := SetSign(prior, if x < 0 then Minus else Plus).value;
    var ax := if x < 0 then -x else x;
    Pow10Length();
    var r := signed.(data := DigitsOf(ax, Length));
    assert Mag(r.data) == ax;
    MagZero(r.data);
    r
  }

  /** Deep copy: the target ends up holding the source's digits and sign. */
  function Copy(n: Mpi): (r: Mpi)
    requires WellFormed(n)
    ensures WellFormed(r) && Value(r) == Value(n)
    ensures r.data == n.data && r.sign == n.sign
  {
    n
  }

  /** Exchange through a temporary, as three copies. */
  function Swap(a: Mpi, b: Mpi): (r: (Mpi, Mpi))
    requires WellFormed(a) && WellFormed(b)
    ensures r.0 == b && r.1 == a
  {
    var t := Copy(b);
    var b' := Copy(a);
    var a' := Copy(t);
    (a', b')
  }

  /** Copy with the sign forced to plus. */
  function Abs(n: Mpi): (r: Mpi)
    requires Canonical(n)
    ensures Canonical(r) && r.sign == Plus && r.data == n.data
    ensures Value(r) == (if Value(n) < 0 then -Value(n) else Value(n))
  {
    SetSign(Copy(n), Plus).value
  }

  /** The setters never produce a negative zero from a canonical value:
      SetSign keeps the zero-sign rule, while SetData can break it. */
  lemma SetDataCanBreakCanonical()
    ensures var m := Negated(One());
            Canonical(m) && !Canonical(SetData(m, 0, 0).value)
  {
    var m := Negated(One());
    var r := SetData(m, 0, 0).value;
    assert r.sign == Minus;
    assert AllZero(r.data) by {
      forall i | 0 <= i < Length ensures r.data[i] == 0 {
        if i > 0 {
          assert r.data[i] == One().data[i];
        }
      }
    }
  }

  /** Swapping twice restores both operands. */
  lemma SwapTwice(a: Mpi, b: Mpi)
    requires WellFormed(a) && WellFormed(b)
    ensures Swap(Swap(a, b).0, Swap(a, b).1) == (a, b)
  {
  }

  /** FromInt always denotes |x| or x, and it is x unless the target was a
      positive zero and x is negative. */
  lemma FromIntOverZero(x: int)
    requires -0x8000_0000 < x < 0
    ensures Value(FromInt(Zero(), x)) == -x
    ensures Value(FromInt(Negated(One()), x)) == x
  {
  }
}
