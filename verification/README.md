# A verified model of `mpi`, an eleven-digit decimal integer library

`mpi` is a small C library of fixed-width decimal integers. A value is a
record of eleven decimal digits, least significant first, and a sign flag
in which 1 means plus and 0 means minus. The library has:

- validated setters;
- constants 0, 1 and 2, and conversion from a machine integer;
- copy and swap;
- addition, subtraction, multiplication and division with remainder;
- absolute value, comparison, the zero test, increment and decrement;
- integer power, Newton square root, trial-division primality and a gcd;
- one-place digit shifts, printing and digit reversal.

Every operation reports a status code: OK 0, invalid digit -2, invalid
assignment -3, invalid number -5, overflow -6. The gcd returns 1 instead,
and pow returns -1 when any step failed.

This project models that library in Dafny. Every operation is a pure
function or method over an immutable `Mpi(data, sign)` record.

- Pure digit logic is written as functions. Long division, the Newton
  square-root iteration and the odd trial of primality are methods whose
  loops carry invariants. Power is a recursive method, and gcd is a method
  that makes the loop's two distinct passes explicitly.
- An operation returns a `Result(status, value)`. The value is what the
  output location holds afterwards. The two setters leave their operand
  unchanged on error. Power reports a failing step as Failed and keeps the
  partial power it computed. On every other error path the library has
  already zeroed the output, so those error results carry zero.
- Every contract is stated against the abstraction function
  `Value(m) = ±Σ data[i]·10^i`. Independent reference definitions are
  used for the results: truncated quotient and remainder (`Quot`, `Rem`),
  `Power`, `FloorSqrt`, `IsPrimeNumber`, `Divides` and the decimal reading
  of text (`Decimal`).
- The canonical form is the invariant every composite operation keeps:
  eleven digits in 0..9, and a zero value carries the plus sign.

Modules follow the library's sections:

- `MpiCore`: representation, abstraction and status codes;
- `Accessors`: setters, constants, copy, swap and abs;
- `Arith`: add, sub, cmp, inc and dec;
- `Multiply`: the library's mul;
- `ExactMultiply`: mul with every lost row digit reported as overflow;
- `Shift`;
- `Division`;
- `Power`;
- `Root`: sqrt;
- `Prime`: isPrime;
- `CommonDivisor`: gcd;
- `Format`: print and reverse.

## Model

| member | source | states |
|---|---|---|
| MpiCore.Value | mpi.h:28-31 | the denoted integer lies strictly between -10^11 and 10^11; it is zero exactly when all digits are zero; for a canonical value it is negative exactly when the sign flag is 0 |
| MpiCore.CanonicalUnique | mpi.h:28-31 | two canonical records that denote the same integer are the same record |
| Accessors.SetData | mpi.c:25-41 | an index outside 0..10 gives invalid digit and a digit outside 0..9 gives invalid assignment, both leaving the value unchanged; otherwise only that digit changes and the sign is kept |
| Accessors.SetSign | mpi.c:43-59 | a flag other than 0 or 1 is an invalid assignment; making a positive zero negative is an invalid number and leaves the value unchanged; otherwise only the sign changes, and canonical form is kept |
| Accessors.SetDataCanBreakCanonical | mpi.c:25-41 | writing a 0 digit into -1 yields a negative zero, so the zero-sign rule is not an invariant of the digit setter |
| Accessors.IsZero | mpi.c:703-721 | true only for a plus sign with all digits zero; on canonical values, exactly when the value is 0 |
| Accessors.Zero | mpi.c:62-76 | the canonical plus zero |
| Accessors.One | mpi.c:78-87 | a canonical plus value denoting 1 |
| Accessors.Two | mpi.c:89-98 | a canonical plus value denoting 2 |
| Accessors.FromInt | mpi.c:121-146 | the result denotes x, except that a negative x over a positive-zero target loses its minus sign (the sign is set before the digits) and denotes -x |
| Accessors.FromIntOverZero | mpi.c:132-138 | a negative x written over zero gives +\|x\|, and written over -1 gives x |
| Accessors.Copy | mpi.c:149-169 | the target holds the source's digits and sign |
| Accessors.Swap | mpi.c:207-222 | the two operands are exchanged |
| Accessors.SwapTwice | mpi.c:207-222 | swapping twice restores both operands |
| Accessors.Negated | mpi.c:43-59 | the sign-flip the composite operations apply: canonical, same digits, denoting minus the magnitude (a zero stays plus zero) |
| Accessors.Abs | mpi.c:543-556 | a canonical plus value with the same digits, denoting \|n\| |
| Arith.AddDigits | mpi.c:266-270 | the carry loop yields digits and a carry of 0 or 1 whose weighted sum is the sum of the operands and the carry in |
| Arith.SubDigits | mpi.c:323-350 | the borrow loop yields digits and a final borrow of 0 or 1 with digits minus borrow·10^n equal to the difference |
| Arith.CmpDigits | mpi.c:584-593 | the most-significant-first scan returns 1, 0 or -1 exactly as the prefix magnitudes compare |
| Arith.Cmp | mpi.c:558-595 | 1, 0 or -1 exactly when Value(a) is greater than, equal to or less than Value(b) |
| Arith.CmpAntisymmetric | mpi.c:558-595 | exchanging the operands negates the comparison |
| Arith.UAdd | mpi.c:262-279 | for non-negative operands: Ok exactly when the sum is below 10^11, with the sum as value; otherwise overflow and zero |
| Arith.USub | mpi.c:317-361 | for non-negative operands the status is always Ok (the final borrow is always zero) and the value is the difference |
| Arith.Add | mpi.c:225-280 | Ok exactly when the sum fits in eleven digits, with the sum as canonical value; otherwise overflow with zero |
| Arith.Sub | mpi.c:282-362 | Ok exactly when the difference fits, with the difference as canonical value; otherwise overflow with zero |
| Arith.SubUndoesAdd | mpi.c:225-362 | subtracting b from a successful a + b gives back a with status Ok |
| Arith.AddCommutes | mpi.c:225-280 | a + b and b + a agree in status and value |
| Arith.NinesOverflow | mpi.c:272-274 | adding 99999999999 to itself overflows and leaves zero |
| Arith.CmpEqualIffSubZero | mpi.c:282-362 | comparison reports equal exactly when the difference is an Ok zero |
| Arith.Inc | mpi.c:816-829 | Ok exactly when n + 1 fits, and then the value is n + 1; otherwise overflow with zero |
| Arith.Dec | mpi.c:831-844 | Ok exactly when n - 1 fits, and then the value is n - 1; otherwise overflow with zero |
| Arith.DecUndoesInc | mpi.c:816-844 | decrementing a successful increment restores n |
| Multiply.MulDigit | mpi.c:426-430 | one row: digits of the row and a final carry h in 0..9 whose weighted sum is a · b[i] |
| Multiply.MulRows | mpi.c:419-441 | the accumulated rows are Ok or overflow-with-zero; Ok gives \|a\|·\|b\| mod 10^11 (digits landing at index 11 or above are dropped); a product below 10^11 is always Ok |
| Multiply.Mul | mpi.c:364-447 | canonical result; Ok or overflow with zero; an Ok result is the product reduced to eleven digits with the sign of the product; whenever the product fits, the status is Ok and the value is exactly the product |
| Multiply.MulMixed | mpi.c:392-411 | a positive operand times a negative one is the negated product of the magnitudes, with the status of that product; Ok gives the truncated signed product, exact whenever it fits |
| Multiply.MulSameSign | mpi.c:413-446 | operands of equal sign: the row loop gives a plus-signed truncated product, exact and Ok whenever it fits |
| Multiply.Placed | mpi.c:426-433 | the row written from index i on keeps its lowest 11 - i digits, worth 10^i times their reading; the digits split into that kept part and the lost upper part |
| Multiply.NextRow | mpi.c:420-440 | one row: Ok or overflow with zero; an Ok total is a · (the first i+1 digits of b) mod 10^11; when the full product fits the row never fails |
| Multiply.MulCommutes | mpi.c:364-447 | when the product fits, a · b and b · a agree in status and value (without that condition they can differ, see ExactMultiply.MulDropsDigit) |
| Multiply.MulDistributes | mpi.c:364-447 | when all the products and sums fit, a · (b + c) equals a · b + a · c |
| ExactMultiply.NextRowChecked | mpi.c:420-440 | one row that also rejects digits landing at index 11 or above: Ok exactly when a · (the first i+1 digits of b) fits, and then the total is exactly that product; otherwise overflow with zero |
| ExactMultiply.MulRowsChecked | mpi.c:419-441 | the checked rows are Ok or overflow with zero, and an Ok total is exactly \|a\|·\|b\| |
| ExactMultiply.MulRowsCheckedFits | mpi.c:419-441 | a product of magnitudes below 10^11 makes the checked rows Ok |
| ExactMultiply.MulCorrected | mpi.c:364-447 | canonical; Ok exactly when the product fits in eleven digits, with the exact product as value; otherwise overflow with zero |
| ExactMultiply.MulCorrectedCommutes | mpi.c:364-447 | the checked product of a and b equals that of b and a, for all operands |
| ExactMultiply.MulAgreesWhenFits | mpi.c:364-447 | when the product fits, the library's mul and the checked one agree |
| ExactMultiply.MulDropsDigit | mpi.c:426-433 | 2 · 5·10^10 comes back Ok with value 0, while 5·10^10 · 2 overflows; the checked product overflows both ways |
| Shift.ShiftL | mpi.c:847-868 | returns the digit that left index 10; the shifted magnitude plus that digit · 10^11 is ten times the magnitude; the sign is kept |
| Shift.ShiftR | mpi.c:870-891 | returns the digit that left index 0; ten times the shifted magnitude plus that digit is the magnitude; the sign is kept |
| Shift.ShiftRUndoesShiftL | mpi.c:847-891 | a right shift restores a left-shifted value exactly when the left shift returned 0 |
| Shift.ShiftLUndoesShiftR | mpi.c:847-891 | a left shift restores a right-shifted value exactly when the right shift returned 0 |
| Division.TruncatedDivision | mpi.c:471-502 | the reference quotient and remainder: a = q·b + r, \|r\| < \|b\|, r zero or of a's sign |
| Division.UnsignedUnique | mpi.c:513-534 | for non-negative operands, a quotient and remainder with 0 <= r < b are Euclid's |
| Division.LargestMultiple | mpi.c:516-530 | the inner loop returns s = b·10^k and c = 10^k with b <= s <= r, stopping only when the next tenfold step would lose a digit or reach r |
| Division.UDiv | mpi.c:504-539 | the long-division loop ends with a = q·b + r and 0 <= r < b; each pass subtracts the multiple the inner loop found, adds its power of ten to the quotient, and lowers r |
| Division.Div | mpi.c:449-540 | a zero divisor is invalid number with zero outputs, and it is the only error; otherwise q and r are the truncated quotient and remainder |
| Division.DivisionRoundTrip | mpi.c:449-540 | multiplying the quotient back and adding the remainder restores the dividend, with no overflow |
| Power.PowerOfSquare | mpi.c:638-642 | (x·x)^k = x^(2k), the identity the even case relies on |
| Power.Pow | mpi.c:597-653 | a negative exponent is invalid number with zero, and is the only such status; otherwise Ok or Failed, and the exact power with Ok whenever it fits in eleven digits |
| Power.PowSquare | mpi.c:636-642 | the even case (a·a)^(b/2) gives the exact power with Ok whenever it fits |
| Power.PowPeel | mpi.c:643-648 | the odd case a · a^(b-1) gives the exact power with Ok whenever it fits |
| Root.FloorSqrt | mpi.c:655-701 | the reference root s with s² <= n < (s+1)² |
| Root.FloorSqrtUnique | mpi.c:655-701 | the floor square root is the only number with that property |
| Root.NewtonFacts | mpi.c:682-684 | from a guess at or above the root (at most n/2, or the root plus one) the sum n/p + p fits, the next guess is again such a guess, and above the root the guess strictly falls |
| Root.TwoCycle | mpi.c:690-695 | a 2-cycle of the iteration is {root, root + 1}, so its smaller member is the root |
| Root.FixedPoint | mpi.c:686-688 | a fixed point of the iteration is the root |
| Root.Halve | mpi.c:684 | a canonical value that is the quotient of x by two |
| Root.Iterate | mpi.c:682-684 | one step: from a guess at or above the root the new guess is (n / p + p) / 2 and the old one was at least 1; for n of 0 or 1 the guess stays 0 |
| Root.Newton | mpi.c:675-698 | the loop from n/2 stops, and yields the floor square root for every n >= 0 except 1, for which it yields 0 |
| Root.Sqrt | mpi.c:655-701 | negative n is invalid number with zero; otherwise Ok with the floor square root, except n = 1 gives 0 |
| Root.SqrtCorrected | mpi.c:655-701 | negative n is invalid number with zero; otherwise Ok with the floor square root of n |
| Prime.TrialVerdictIsPrime | mpi.c:723-768 | for odd numbers and numbers up to 2, the verdict of the trial division is primality |
| Prime.EvenNumberPasses | mpi.c:753-767 | 6 passes the trial division but is not prime |
| Prime.OddTrial | mpi.c:753-767 | the loop over odd d from 3 finds a divisor exactly when some odd d in 3..floor(sqrt n) divides n |
| Prime.DividesTest | mpi.c:759-763 | the remainder of n by d is zero exactly when d divides n |
| Prime.NextOdd | mpi.c:766 | the candidate moves on to d + 2 and stays odd |
| Prime.SquareTest | mpi.c:745-748 | with r the floor root, r · r equals n exactly when n is a perfect square |
| Prime.TrialDecision | mpi.c:733-767 | the decision equals the trial verdict: 2 passes, smaller numbers and perfect squares fail, otherwise pass exactly when no odd d in 3..floor(sqrt n) divides n |
| Prime.IsPrime | mpi.c:723-768 | true for 2; false below 2 and for perfect squares; otherwise true exactly when no odd number from 3 to the root divides n; for odd n this is primality |
| Prime.IsPrimeCorrected | mpi.c:723-768 | true exactly when n is prime |
| CommonDivisor.CommonDivisorStep | mpi.c:804-812 | the divisors common to x and y are those common to y and the remainder of x by y |
| CommonDivisor.TwoPasses | mpi.c:794-813 | on the ordered operands: a returned value (code 1) is one of them and divides both; divergence exactly when both are nonzero and neither divides the other |
| CommonDivisor.Gcd | mpi.c:770-814 | a returned value (code 1) is one of the operands and divides both; the call runs forever exactly when both are nonzero and neither divides the other |
| CommonDivisor.GcdOfFourAndSixDiverges | mpi.c:800-813 | neither of 4 and 6 divides the other, so gcd(4, 6) runs forever |
| CommonDivisor.GcdCorrected | mpi.c:770-814 | always returns (code 1), with a value whose divisors are exactly the common divisors of the operands |
| Format.PrintDigits | mpi.c:905-907 | one character '0'..'9' per digit |
| Format.Print | mpi.c:894-910 | eleven digit characters, preceded by '-' exactly when the sign flag is 0 |
| Format.PrintDigitsDenote | mpi.c:905-907 | the printed digits, read most significant first, give the magnitude |
| Format.PrintDenotes | mpi.c:894-910 | the printed text without its sign reads back as the magnitude |
| Format.PrintInjective | mpi.c:894-910 | distinct values print differently |
| Format.PrintZero | mpi.c:894-910 | zero prints as eleven '0' characters |
| Format.HighestNonzero | mpi.c:928 | the scan stops at the highest nonzero digit, or at -1 when all are zero |
| Format.Reverse | mpi.c:912-936 | canonical, with the sign kept; with l the highest nonzero digit, digit k of the result is digit l - k of n for k <= l and 0 above; zero exactly when n is zero; a nonzero result has a nonzero lowest digit |
| Format.ReverseTwice | mpi.c:912-936 | reversing twice restores n exactly when n is zero or its lowest digit is nonzero |

## Left out

- main.c is a demonstration driver that only consumes the library.
- The NULL-pointer branches, the aliasing guards (`a != o`, `n == o`) and the setters' OK for a NULL target are pointer artefacts: the model is pure and takes and returns values.
- The `putchar` side effect of print is not modelled: `Print` is the character sequence it writes.
- `Mpi_random` draws digits from libc `random()`, so it is nondeterministic and is not part of this model.
- `Mpi_getData` and `Mpi_getSign` are field reads of the record.
- `Mpi_copyData` and `Mpi_copySign` appear only inside the shifts and reverse, which are modelled directly. Their off-by-one index bound (`> MPI_LENGTH`) is harmless because the setter checks the index again.
- Accessors.FromInt: INT_MIN is excluded, because negating it overflows in C. The compile-time `MPI_LENGTH < 10` guard is not modelled.
- Power.Pow: the status is modelled as Failed (-1) whenever any step fails, which is what the sum of the step codes collapses to.
- Power.Pow: when the power does not fit in eleven digits, the contract does not say whether the status is Failed or Ok with a truncated value, nor what the value is.
- Multiply.Mul: an Ok result is pinned down modulo 10^11. The contract does not say which products that do not fit come back Ok with dropped digits and which come back as overflow. ExactMultiply.MulDropsDigit exhibits one of each. The other modules call this library mul, and their contracts rely on its value only for products that fit, where it agrees with ExactMultiply.MulCorrected (ExactMultiply.MulAgreesWhenFits).
- Shift.ShiftL: a negative operand whose remaining digits are all zero is excluded. There the library's fresh output reads an uninitialised sign.
- Shift.ShiftR: the same exclusion applies. Division only shifts non-negative values.
- The redundant zero-dividend branch of div (mpi.c:466-469) is not modelled separately. It zeroes the outputs and falls through to the same computation.
- The loop of `Mpi_gcd` is not modelled as a loop. Its state repeats after two passes, so `Gcd` models both passes and reports the divergence as an outcome.

## Findings

| source | as written | input that shows it | evidently intended | confidence | as-written member | corrected member |
|---|---|---|---|---|---|---|
| mpi.c:675-688 | the first guess is n/2, which is 0 for n = 1; the division by this zero guess fails and leaves 0, so the loop stops at 0 | n = 1 gives 0 | the floor square root, 1 | not executed | Root.Sqrt | Root.SqrtCorrected |
| mpi.c:753-767 | the trial divisors start at 3 and step by 2, and no earlier test rejects even numbers | n = 6 (also 8 and 10) is reported prime | reject even n above 2 | not executed | Prime.EvenNumberPasses | Prime.IsPrimeCorrected |
| mpi.c:811-812 | after the swap, `Mpi_copy(&sml, &div_r)` copies into the remainder instead of out of it, so the state repeats every two passes | gcd(4, 6) never returns | Euclid's step, sml := big mod sml | not executed | CommonDivisor.GcdOfFourAndSixDiverges | CommonDivisor.GcdCorrected |
| mpi.c:426-433 | the row digit for index j + i goes through `Mpi_setData`, whose invalid-digit error for an index of 11 or more is ignored, so such digits vanish; only a carry out of the last digit is reported | 2 · 5·10^10 gives Ok 0, while 5·10^10 · 2 gives overflow | overflow whenever the product does not fit in eleven digits | not executed | ExactMultiply.MulDropsDigit | ExactMultiply.MulCorrected |
