/** Printing and digit reversal. */
module Format {
  import opened MpiCore
  import opened Accessors

  /** The character of a decimal digit. */
  function DigitChar(d: int): (c: char)
    requires IsDigit(d)
    ensures '0' <= c <= '9' && c as int - '0' as int == d
  {
    ('0' as int + d) as char
  }

  /** The digit characters from the highest index down to index 0. */
  function PrintDigits(ds: seq<int>): (s: string)
    requires AllDigits(ds)
    ensures |s| == |ds|
    ensures forall k :: 0 <= k < |ds| ==> '0' <= s[k] <= '9'
  {
    if |ds| == 0 then ""
    else
      AllDigitsSlice(ds, 1, |ds|);
      PrintDigits(ds[1..]) + [DigitChar(ds[0])]
  }

  /** The text the library writes: a minus sign for the minus flag, then
      all eleven digits, most significant first, leading zeros included. */
  function Print(n: Mpi): (s: string)
    requires WellFormed(n)
    ensures |s| == if n.sign == Minus then Length + 1 else Length
    ensures n.sign == Minus <==> (|s| > 0 && s[0] == '-')
  {
    (if n.sign == Minus then "-" else "") + PrintDigits(n.data)
  }

  /** Reading decimal text the usual way, most significant digit first. */
  function Decimal(s: string): int
  {
    if |s| == 0 then 0 else 10 * Decimal(s[..|s| - 1]) + (s[|s| - 1] as int - '0' as int)
  }

  /** The printed digits read back, most significant first, give the
      magnitude. */
  lemma {:induction false} PrintDigitsDenote(ds: seq<int>)
    requires AllDigits(ds)
    ensures Decimal(PrintDigits(ds)) == Mag(ds)
  {
    if |ds| > 0 {
      AllDigitsSlice(ds, 1, |ds|);
      var s := PrintDigits(ds);
      assert s[..|s| - 1] == PrintDigits(ds[1..]);
      PrintDigitsDenote(ds[1..]);
    }
  }

  /** The printed text denotes the value: its sign and the decimal reading
      of its digits. */
  lemma PrintDenotes(n: Mpi)
    requires WellFormed(n)
    ensures var s := Print(n);
            var digits := if n.sign == Minus then s[1..] else s;
            Decimal(digits) == Magnitude(n)
  {
    PrintDigitsDenote(n.data);
    var s := Print(n);
    if n.sign == Minus {
      assert s[1..] == PrintDigits(n.data);
    } else {
      assert s == PrintDigits(n.data);
    }
  }

  /** Distinct values print differently. */
  lemma PrintInjective(a: Mpi, b: Mpi)
    requires WellFormed(a) && WellFormed(b) && Print(a) == Print(b)
    ensures a == b
  {
    PrintDenotes(a);
    PrintDenotes(b);
    MagInjective(a.data, b.data);
  }

  /** The scan of the reversal: from index l down, the first nonzero digit,
      or -1 when none is left. */
  function HighestNonzero(ds: seq<int>, l: int): (r: int)
    requires -1 <= l < |ds|
    ensures -1 <= r <= l
    ensures r >= 0 ==> ds[r] != 0
    ensures forall k :: r < k <= l ==> ds[k] == 0
    decreases l + 1
  {
    if l >= 0 && ds[l] == 0 then HighestNonzero(ds, l - 1) else l
  }

  /** The reversal: the digits up to the highest nonzero one are written in
      the opposite order into a zeroed output, and the sign is copied. */
  function Reverse(n: Mpi): (r: Mpi)
    requires Canonical(n)
    ensures Canonical(r) && r.sign == n.sign
    ensures var l := HighestNonzero(n.data, Length - 1);
            forall k :: 0 <= k < Length ==> r.data[k] == if k <= l then n.data[l - k] else 0
    ensures !IsZero(n) ==> r.data[0] != 0
    ensures IsZero(n) <==> IsZero(r)
  {
    var l := HighestNonzero(n.data, Length - 1);
    var o := seq(Length, k requires 0 <= k < Length => if k <= l then n.data[l - k] else 0);
    assert AllZero(n.data) <==> l == -1;
    assert l >= 0 ==> o[0] == n.data[l];
    assert AllZero(o) ==> l == -1;
    SetSign(Mpi(o, Plus), n.sign).value
  }

  /** Reversing twice restores the value exactly when its lowest digit is
      nonzero (or it is zero): otherwise the low zeros are lost. */
  lemma ReverseTwice(n: Mpi)
    requires Canonical(n)
    ensures Reverse(Reverse(n)) == n <==> IsZero(n) || n.data[0] != 0
  {
    var r := Reverse(n);
    var l := HighestNonzero(n.data, Length - 1);
    if IsZero(n) {
      assert l == -1;
      assert HighestNonzero(r.data, Length - 1) == -1;
      assert Reverse(r).data == n.data;
    } else if n.data[0] != 0 {
      assert r.data[l] == n.data[0];
      assert HighestNonzero(r.data, Length - 1) == l;
      assert Reverse(r).data == n.data;
    } else {
      assert Reverse(r).data[0] != 0;
    }
  }

  /** Zero prints as eleven zero characters. */
  lemma PrintZero()
    ensures Print(Zero()) == "00000000000"
  {
  }
}
