/** Multiplication and division by ten through a one-place digit move. The
    digit pushed out is returned, not reported as an error. */
module Shift {
  import opened MpiCore

  /** The operand a shift can take without its copied sign meeting an
      all-zero result: the sign of the fresh output is only written when
      the digits are not all zero or the sign is plus. */
  predicate ShiftableLeft(n: Mpi) {
    WellFormed(n) && (n.sign == Plus || !AllZero(n.data[..Length - 1]))
  }

  predicate ShiftableRight(n: Mpi) {
    WellFormed(n) && (n.sign == Plus || !AllZero(n.data[1..]))
  }

  /** The digits moved one place up: still digits, and all zero only if
      the kept ones were. */
  lemma ShiftUpDigits(ds: seq<int>)
    requires |ds| >= 1 && AllDigits(ds)
    ensures AllDigits([0] + ds[..|ds| - 1])
    ensures AllZero([0] + ds[..|ds| - 1]) ==> AllZero(ds[..|ds| - 1])
  {
    var low := ds[..|ds| - 1];
    var o := [0] + low;
    forall k | 0 <= k < |o| ensures IsDigit(o[k]) {
      if k > 0 {
        assert o[k] == ds[k - 1];
      }
    }
    if AllZero(o) {
      forall k | 0 <= k < |low| ensures low[k] == 0 {
        assert low[k] == o[k + 1];
      }
    }
  }

  /** The digits moved one place up are worth ten times the original less
      the top digit carried out. */
  lemma ShiftUpMag(ds: seq<int>)
    requires |ds| >= 1
    ensures Mag([0] + ds[..|ds| - 1]) + ds[|ds| - 1] * Pow10(|ds|) == 10 * Mag(ds)
  {
    var n := |ds|;
    var low, d, p := ds[..n - 1], ds[n - 1], Pow10(n - 1);
    assert Mag([0] + low) == 10 * Mag(low) by {
      assert ([0] + low)[1..] == low;
    }
    assert Mag(ds) == Mag(low) + p * d by {
      assert ds == low + [d];
      MagAppend(low, [d]);
      assert [d][1..] == [];
      assert Mag([d]) == d;
    }
    assert Pow10(n) == 10 * p;
    TenfoldPlace(d, p);
  }

  /** A digit d at place p, moved one place up, is worth ten times as much. */
  lemma TenfoldPlace(d: int, p: int)
    ensures d * (10 * p) == 10 * (p * d)
  {
  }

  /** The digits moved one place down: still digits, and all zero only if
      the kept ones were. */
  lemma ShiftDownDigits(ds: seq<int>)
    requires |ds| >= 1 && AllDigits(ds)
    ensures AllDigits(ds[1..] + [0])
    ensures AllZero(ds[1..] + [0]) ==> AllZero(ds[1..])
  {
    var high := ds[1..];
    var o := high + [0];
    forall k | 0 <= k < |o| ensures IsDigit(o[k]) {
      if k < |high| {
        assert o[k] == ds[k + 1];
      }
    }
    if AllZero(o) {
      forall k | 0 <= k < |high| ensures high[k] == 0 {
        assert high[k] == o[k];
      }
    }
  }

  /** The digits moved one place down are worth a tenth of the original
      less the bottom digit carried out. */
  lemma ShiftDownMag(ds: seq<int>)
    requires |ds| >= 1
    ensures 10 * Mag(ds[1..] + [0]) + ds[0] == Mag(ds)
  {
    var high := ds[1..];
    MagAppend(high, [0]);
    assert [0][1..] == [];
    assert Mag([0]) == 0;
    assert Mag(high + [0]) == Mag(high) + Pow10(|high|) * 0;
    assert Mag(ds) == ds[0] + 10 * Mag(high);
  }

  /** Moves every digit one place up, fills index 0 with zero, keeps the
      sign, and returns the digit that left index Length - 1. */
  function ShiftL(n: Mpi): (r: (int, Mpi))
    requires ShiftableLeft(n)
    ensures IsDigit(r.0) && WellFormed(r.1) && r.1.sign == n.sign
    ensures Magnitude(r.1) + r.0 * Bound == 10 * Magnitude(n)
    ensures Canonical(n) ==> Canonical(r.1)
  {
    ShiftUpDigits(n.data);
    ShiftUpMag(n.data);
    Pow10Length();
    (n.data[Length - 1], Mpi([0] + n.data[..Length - 1], n.sign))
  }

  /** Moves every digit one place down, fills index Length - 1 with zero,
      keeps the sign, and returns the digit that left index 0. */
  function ShiftR(n: Mpi): (r: (int, Mpi))
    requires ShiftableRight(n)
    ensures IsDigit(r.0) && WellFormed(r.1) && r.1.sign == n.sign
    ensures 10 * Magnitude(r.1) + r.0 == Magnitude(n)
    ensures Canonical(n) ==> Canonical(r.1)
  {
    ShiftDownDigits(n.data);
    ShiftDownMag(n.data);
    (n.data[0], Mpi(n.data[1..] + [0], n.sign))
  }

  /** Shifting right undoes a left shift exactly when no digit was lost. */
  lemma ShiftRUndoesShiftL(n: Mpi)
    requires Canonical(n) && ShiftableLeft(n)
    ensures ShiftableRight(ShiftL(n).1)
    ensures ShiftR(ShiftL(n).1) == (0, n) <==> ShiftL(n).0 == 0
  {
    var o := ShiftL(n).1;
    assert o.data[1..] == n.data[..Length - 1];
    if ShiftL(n).0 == 0 {
      assert ShiftR(o).1.data == n.data;
    }
  }

  /** Shifting left undoes a right shift exactly when the lowest digit was
      zero. */
  lemma ShiftLUndoesShiftR(n: Mpi)
    requires Canonical(n) && ShiftableRight(n)
    ensures ShiftableLeft(ShiftR(n).1)
    ensures ShiftL(ShiftR(n).1) == (0, n) <==> ShiftR(n).0 == 0
  {
    var o := ShiftR(n).1;
    assert o.data[..Length - 1] == n.data[1..];
    if ShiftR(n).0 == 0 {
      assert ShiftL(o).1.data == n.data;
    }
  }
}
