/** The representation shared by every operation: a fixed-width,
    sign-magnitude decimal integer holding `Length` digits, least
    significant first, and a sign flag in which 1 means plus and 0 means
    minus. `Value` is the abstraction function that every contract of the
    model is stated against. */
module MpiCore {

  /** Number of digits of every value. */
  const Length: nat := 11
  /** Sign flags. Minus is encoded as 0, plus as 1. */
  const Plus: int := 1
  const Minus: int := 0
  /** 10^Length: the smallest magnitude that no longer fits. */
  const Bound: int := 100_000_000_000

  function Pow10(n: nat): (r: int)
    ensures r >= 1
  {
    if n == 0 then 1 else 10 * Pow10(n - 1)
  }

  lemma Pow10Length()
    ensures Pow10(Length) == Bound
  {
  }

  lemma {:induction false} Pow10Add(i: nat, j: nat)
    ensures Pow10(i + j) == Pow10(i) * Pow10(j)
  {
    if i > 0 {
      Pow10Add(i - 1, j);
      assert Pow10(i + j) == 10 * Pow10(i - 1 + j);
      assert 10 * (Pow10(i - 1) * Pow10(j)) == (10 * Pow10(i - 1)) * Pow10(j);
    }
  }

  predicate IsDigit(d: int) {
    0 <= d <= 9
  }

  predicate AllDigits(s: seq<int>) {
    forall i :: 0 <= i < |s| ==> IsDigit(s[i])
  }

  predicate AllZero(s: seq<int>) {
    forall i :: 0 <= i < |s| ==> s[i] == 0
  }

  /** The number a little-endian digit sequence denotes. */
  function Mag(s: seq<int>): int
  {
    if |s| == 0 then 0 else s[0] + 10 * Mag(s[1..])
  }

  lemma {:induction false} MagAppend(s: seq<int>, t: seq<int>)
    ensures Mag(s + t) == Mag(s) + Pow10(|s|) * Mag(t)
  {
    if |s| == 0 {
      assert s + t == t;
    } else {
      assert (s + t)[1..] == s[1..] + t;
      MagAppend(s[1..], t);
      assert 10 * (Pow10(|s| - 1) * Mag(t)) == (10 * Pow10(|s| - 1)) * Mag(t);
    }
  }

  lemma {:induction false} MagBounds(s: seq<int>)
    requires AllDigits(s)
    ensures 0 <= Mag(s) < Pow10(|s|)
  {
    if |s| > 0 {
      assert AllDigits(s[1..]) by {
        forall i | 0 <= i < |s| - 1 ensures IsDigit(s[1..][i]) {
          assert s[1..][i] == s[i + 1];
        }
      }
      MagBounds(s[1..]);
    }
  }

  lemma {:induction false} MagZero(s: seq<int>)
    requires AllDigits(s)
    ensures Mag(s) == 0 <==> AllZero(s)
  {
    if |s| > 0 {
      assert AllDigits(s[1..]) by {
        forall i | 0 <= i < |s| - 1 ensures IsDigit(s[1..][i]) {
          assert s[1..][i] == s[i + 1];
        }
      }
      MagZero(s[1..]);
      MagBounds(s[1..]);
      if AllZero(s) {
        assert s[0] == 0;
        assert AllZero(s[1..]) by {
          forall i | 0 <= i < |s| - 1 ensures s[1..][i] == 0 {
            assert s[1..][i] == s[i + 1];
          }
        }
      }
      if Mag(s) == 0 {
        forall i | 0 <= i < |s| ensures s[i] == 0 {
          if i > 0 {
            assert s[i] == s[1..][i - 1];
          }
        }
      }
    }
  }

  lemma {:induction false} MagInjective(s: seq<int>, t: seq<int>)
    requires |s| == |t| && AllDigits(s) && AllDigits(t)
    requires Mag(s) == Mag(t)
    ensures s == t
  {
    if |s| > 0 {
      assert AllDigits(s[1..]) by {
        forall i | 0 <= i < |s| - 1 ensures IsDigit(s[1..][i]) {
          assert s[1..][i] == s[i + 1];
        }
      }
      assert AllDigits(t[1..]) by {
        forall i | 0 <= i < |t| - 1 ensures IsDigit(t[1..][i]) {
          assert t[1..][i] == t[i + 1];
        }
      }
      assert IsDigit(s[0]) && IsDigit(t[0]);
      assert Mag(s[1..]) == Mag(t[1..]);
      MagInjective(s[1..], t[1..]);
      assert s == [s[0]] + s[1..];
      assert t == [t[0]] + t[1..];
    }
  }

  /** The top digit of a prefix weighs Pow10 of its index. */
  lemma MagSnoc(s: seq<int>, i: nat)
    requires 0 < i <= |s|
    ensures Mag(s[..i]) == Mag(s[..i - 1]) + s[i - 1] * Pow10(i - 1)
  {
    assert s[..i] == s[..i - 1] + [s[i - 1]];
    MagAppend(s[..i - 1], [s[i - 1]]);
    assert Mag([s[i - 1]]) == s[i - 1] + 10 * Mag([s[i - 1]][1..]);
  }

  lemma AllDigitsSlice(s: seq<int>, i: nat, j: nat)
    requires AllDigits(s) && i <= j <= |s|
    ensures AllDigits(s[i..j])
  {
    forall k | 0 <= k < j - i ensures IsDigit(s[i..j][k]) {
      assert s[i..j][k] == s[i + k];
    }
  }

  /** One value of the record: `data` holds the digits, least significant
      first; `sign` is Plus or Minus. */
  datatype Mpi = Mpi(data: seq<int>, sign: int)

  /** What the validated setters can ever produce: eleven digits in [0, 9]
      and one of the two sign flags. */
  predicate WellFormed(m: Mpi) {
    |m.data| == Length && AllDigits(m.data) && (m.sign == Plus || m.sign == Minus)
  }

  /** The invariant of every composite operation: in addition, an all-zero
      magnitude carries the plus sign. */
  predicate Canonical(m: Mpi) {
    WellFormed(m) && (AllZero(m.data) ==> m.sign == Plus)
  }

  function Magnitude(m: Mpi): (r: int)
    requires WellFormed(m)
    ensures 0 <= r < Bound
    ensures r == 0 <==> AllZero(m.data)
  {
    MagBounds(m.data);
    MagZero(m.data);
    Pow10Length();
    Mag(m.data)
  }

  /** The abstraction function: plus or minus the sum of digit[i] * 10^i. */
  function Value(m: Mpi): (v: int)
    requires WellFormed(m)
    ensures -Bound < v < Bound
    ensures v == 0 <==> AllZero(m.data)
    ensures Canonical(m) ==> (v < 0 <==> m.sign == Minus)
  {
    if m.sign == Minus then -Magnitude(m) else Magnitude(m)
  }

  /** A canonical value is determined by the integer it denotes. */
  lemma CanonicalUnique(a: Mpi, b: Mpi)
    requires Canonical(a) && Canonical(b)
    requires Value(a) == Value(b)
    ensures a == b
  {
    assert a.sign == b.sign;
    assert Mag(a.data) == Mag(b.data);
    MagInjective(a.data, b.data);
  }

  /** The number of negative operands: the measure that bounds the
      sign-dispatch recursion of the arithmetic operations. */
  function Neg(m: Mpi): nat {
    if m.sign == Minus then 1 else 0
  }

  /** Status codes returned by the operations. */
  datatype Status = Ok | Failed | InvalidDigit | InvalidAssign | InvalidNumber | Overflow {
    /** The integer the library returns for this status. */
    function Code(): int {
      match this
      case Ok => 0
      case Failed => -1
      case InvalidDigit => -2
      case InvalidAssign => -3
      case InvalidNumber => -5
      case Overflow => -6
    }
  }

  /** The status an operation returns together with the value its output
      location holds afterwards. */
  datatype Result = Result(status: Status, value: Mpi)

  /** The digits of `x` produced by repeated division by ten. */
  function DigitsOf(x: int, n: nat): (r: seq<int>)
    requires x >= 0
    ensures |r| == n && AllDigits(r)
    ensures x < Pow10(n) ==> Mag(r) == x
  {
    if n == 0 then []
    else
      var rest := DigitsOf(x / 10, n - 1);
      assert ([x % 10] + rest)[1..] == rest;
      [x % 10] + rest
  }

  /** The canonical non-negative value denoting `x`. */
  function FromNat(x: int): (r: Mpi)
    requires 0 <= x < Bound
    ensures Canonical(r) && r.sign == Plus && Value(r) == x
  {
    Pow10Length();
    Mpi(DigitsOf(x, Length), Plus)
  }
}
