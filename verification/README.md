# The C code of Why3: models and proofs

This project models the C code that ships with the Why3 platform and proves
what that code is for.

- **mini-gmp**, the multiprecision library. Limb arrays are Dafny arrays, loops
  are loops, `mpz_t` is a class whose outputs may be its inputs. The reciprocals
  of Möller and Granlund, the 2/1 and 3/2 division macros and schoolbook
  division are exact. Signed division in three rounding modes agrees with its
  fast forms. The bit operations have their meaning in infinite two's
  complement. The number theory on top of it computes gcds with cofactors,
  inverses, powers modulo m and integer roots, and its primality test answers
  exactly as the strong test with its bases does, on the variables of the
  program. Text in any base reads back, also behind the prefixes of base 0.
- **The prover server**. Its ring queue, key table, read buffer and write buffer
  are classes. The event loop is a class over these structures, and every handler
  is an event of a state machine whose invariants hold in every state of every
  run that is not aborted. System calls return anything that the operating system
  guarantees.
- **Smaller parts**: the quoting of Windows command lines, the inverse-free
  division and the carry helpers of `uint64gmp.h`, the Mersenne Twister and the
  sparse array.

A limb is a natural number below B = 2^64 and C arithmetic wraps explicitly.
`Val` is the number that limbs denote, `TBit` a bit of the infinite two's
complement, `Word` the C operators on words. `MpzVars.Vars` holds the `mpz_t`
variables that a function works on, by number: parameters that are the same
variable have the same number, a null output is -1, and the variables that a
function initialises come behind those of its caller. The server's state
(`ServerState.State`) has a record of the past beside the tables and buffers of
the program: the requests accepted, the messages sent, what was written and
received. Serial numbers of requests and connections exist only to tell them
apart.

What the operating system is taken to guarantee is the predicate
`ServerState.Allowed`: accepted descriptors are new, a fork returns a pid that no
unreaped child has, `wait3` returns unreaped children, and `write` reports -1 or
at most the bytes offered. `poll` reports POLLOUT only where it was asked for,
and of the listening socket nothing but POLLIN.

Where the code falls short of what one would expect, the exact condition is part
of the contract. After a failed write the server keeps the write buffer flagged
as writing, and the assertion in `prepare_write` fails at the next POLLOUT for
that client: a run aborts if and only if some connection is written to after an
earlier write to it returned -1. `mpz_powm` stores 1 for a zero exponent without reducing it, so
its result is below |m| if and only if not both e = 0 and |m| = 1 (`b`, 0 and 1
give 1). The Windows quoting does not quote arguments for their tabs, so
arguments come back if and only if each one with a tab also has a space or a
double quote (a lone tab is lost).

## Model

| member | source | states |
|---|---|---|
| `MpnArith.UmulPpmm` | examples/multiprecision/mini-gmp/mini-gmp.c:114-137 | the two result limbs are the exact product, although the middle column may wrap once |
| `MpnArith.AddN` | examples/multiprecision/mini-gmp/mini-gmp.c:415-432 | result plus carry times B^n is the sum of the two numbers, in place or not; limbs outside the result stay |
| `MpnArith.Add1` | examples/multiprecision/mini-gmp/mini-gmp.c:396-413 | adding one limb: exact sum, carry at most 1 |
| `MpnArith.SubN` | examples/multiprecision/mini-gmp/mini-gmp.c:468-484 | result minus borrow times B^n is the difference |
| `MpnArith.Sub1` | examples/multiprecision/mini-gmp/mini-gmp.c:447-466 | subtracting one limb: exact difference, borrow at most 1 |
| `MpnArith.Add` | examples/multiprecision/mini-gmp/mini-gmp.c:434-445 | sum of numbers of different length |
| `MpnArith.Sub` | examples/multiprecision/mini-gmp/mini-gmp.c:486-497 | difference of numbers of different length |
| `MpnArith.Mul1` | examples/multiprecision/mini-gmp/mini-gmp.c:499-520 | product with one limb, with the carry limb on top |
| `MpnArith.AddMul1` | examples/multiprecision/mini-gmp/mini-gmp.c:522-546 | r + u v, exact with the carry limb; u may be in the same array as long as writing does not overtake reading |
| `MpnArith.SubMul1` | examples/multiprecision/mini-gmp/mini-gmp.c:548-572 | r - u v, exact with the borrow limb, under the same condition |
| `MpnArith.Mul` | examples/multiprecision/mini-gmp/mini-gmp.c:574-595 | the un + vn limbs are the full product |
| `MpnShift.Lshift` | examples/multiprecision/mini-gmp/mini-gmp.c:609-637 | shifted number plus returned bits times B^n is u 2^cnt, from the top limb down, in place or upwards |
| `MpnShift.Rshift` | examples/multiprecision/mini-gmp/mini-gmp.c:639-664 | quotient by 2^cnt, and the bits shifted out at the top of the returned limb |
| `MpnShift.CopyI` | examples/multiprecision/mini-gmp/mini-gmp.c:340-346 | copying limbs upwards is right where writing does not overtake reading |
| `MpnShift.Clz` | examples/multiprecision/mini-gmp/mini-gmp.c:79-89 | the shift that brings the top bit of a nonzero limb to bit 63 |
| `MpnShift.Ctz` | examples/multiprecision/mini-gmp/mini-gmp.c:91-96 | the number of factors two, from the lowest set bit x & -x |
| `MpnShift.Cmp` | examples/multiprecision/mini-gmp/mini-gmp.c:355-364 | the sign of the difference of the numbers |
| `MpnShift.NormalizedSize` | examples/multiprecision/mini-gmp/mini-gmp.c:375-381 | dropping zero limbs from the top keeps the value and leaves a nonzero top limb |
| `MpnShift.Neg` | examples/multiprecision/mini-gmp/mini-gmp.c:713-726 | negation modulo B^n and whether the number was nonzero |
| `Reciprocal.Candidate3by2` | examples/multiprecision/mini-gmp/mini-gmp.c:158-183 | for any base: with the 3/2 reciprocal, the candidate remainder of a 3/2 division lies in a window of length b^2 |
| `Reciprocal.Candidate2by1` | examples/multiprecision/mini-gmp/mini-gmp.c:139-156 | for any base: the same window for a 2/1 division |
| `Udiv.AddPair` | examples/multiprecision/mini-gmp/mini-gmp.c:98-104 | double-limb sum modulo B^2 with the carry recovered by comparison |
| `Udiv.SubPair` | examples/multiprecision/mini-gmp/mini-gmp.c:106-112 | double-limb difference modulo B^2 |
| `Udiv.UdivPreinv` | examples/multiprecision/mini-gmp/mini-gmp.c:139-156 | with the right reciprocal: exact 2/1 quotient and remainder |
| `Udiv.Udiv3by2` | examples/multiprecision/mini-gmp/mini-gmp.c:158-183 | with the right reciprocal: exact 3/2 quotient and two-limb remainder |
| `Invert.UdivQrnndC` | examples/multiprecision/overlays/uint64gmp.h:46-82 | for normalised d and n1 < d: exact 2/1 quotient and remainder from two half-limb digits, each corrected at most twice |
| `Invert.InvertLimb` | examples/multiprecision/mini-gmp/mini-gmp.c:743-810 | the reciprocal of a limb, and the remainder that the next step starts from |
| `Invert.Invert3by2` | examples/multiprecision/mini-gmp/mini-gmp.c:735-839 | for every normalised u1 and every u0 the result is floor((B^3 - 1) / (B u1 + u0)) - B |
| `Invert.NeverEqual` | examples/multiprecision/mini-gmp/mini-gmp.c:829-835 | why the strict comparison is exact: no divisor strictly between B^2/2 and B^2 makes the excess zero, because it would divide a power of two |
| `MpnDiv.MaxDigit` | examples/multiprecision/mini-gmp/mini-gmp.c:1072-1077 | when the two top limbs equal those of the divisor the digit is B - 1 and the subtraction leaves a window below D |
| `MpnDiv.EstimatedDigit` | examples/multiprecision/mini-gmp/mini-gmp.c:1078-1095 | otherwise estimate, subtract and add back at most once: the digit is exact and the window ends below D |
| `MpnDiv.DivQrPi1` | examples/multiprecision/mini-gmp/mini-gmp.c:1042-1103 | schoolbook division by a normalised divisor of three or more limbs: exact quotient and remainder |
| `MpnDivQr.DivQr1Invert` | examples/multiprecision/mini-gmp/mini-gmp.c:851-861 | the inverse of a limb serves division by it |
| `MpnDivQr.DivQr2Invert` | examples/multiprecision/mini-gmp/mini-gmp.c:863-880 | the inverse of two limbs serves division by them |
| `MpnDivQr.DivQrInvert` | examples/multiprecision/mini-gmp/mini-gmp.c:882-911 | the inverse of any normal divisor serves division by it, from its three top limbs |
| `MpnDivQr.DivQr1Preinv` | examples/multiprecision/mini-gmp/mini-gmp.c:915-946 | quotient and remainder by one limb, q null or n itself |
| `MpnDivQr.DivQr1` | examples/multiprecision/mini-gmp/mini-gmp.c:948-976 | quotient and remainder by one limb, powers of two by shifting |
| `MpnDivQr.DivQr2Preinv` | examples/multiprecision/mini-gmp/mini-gmp.c:978-1027 | quotient and remainder by two limbs |
| `MpnDivQr.DivQrPreinv` | examples/multiprecision/mini-gmp/mini-gmp.c:1105-1137 | quotient and remainder for every divisor length, remainder over the low limbs of n |
| `MpnDivQr.DivQr` | examples/multiprecision/mini-gmp/mini-gmp.c:1139-1158 | for all nn >= dn >= 1 with a nonzero top divisor limb: N = Q D + R with 0 <= R < D |
| `MpzCore.Mpz.Realloc` | examples/multiprecision/mini-gmp/mini-gmp.c:1453-1473 | room for n limbs, contents kept |
| `MpzCore.Set` | examples/multiprecision/mini-gmp/mini-gmp.c:1500-1515 | r gets the value of x, r may be x |
| `MpzCore.SetUi` | examples/multiprecision/mini-gmp/mini-gmp.c:1488-1498 | r gets the limb |
| `MpzCore.MpzSwap` | examples/multiprecision/mini-gmp/mini-gmp.c:1854-1860 | sizes and limbs change places |
| `MpzCore.MpzNeg` | examples/multiprecision/mini-gmp/mini-gmp.c:1847-1852 | r = -x, r may be x |
| `MpzCore.CmpMag` | examples/multiprecision/mini-gmp/mini-gmp.c:366-373 | the sign of |a| - |b|, from lengths and limbs |
| `MpzCore.AbsAddUi` | examples/multiprecision/mini-gmp/mini-gmp.c:1866-1889 | |a| + b in normalised limbs |
| `MpzCore.AbsSubUi` | examples/multiprecision/mini-gmp/mini-gmp.c:1891-1913 | ||a| - b| in normalised limbs, with the sign of |a| - b |
| `MpzCore.AbsAdd` | examples/multiprecision/mini-gmp/mini-gmp.c:1942-1962 | |a| + |b| in normalised limbs, r may be a or b |
| `MpzCore.AbsSub` | examples/multiprecision/mini-gmp/mini-gmp.c:1964-1987 | ||a| - |b|| in normalised limbs, with the sign of |a| - |b| |
| `MpzCore.MpzAdd` | examples/multiprecision/mini-gmp/mini-gmp.c:1989-2000 | r = a + b for all signs and all aliasing |
| `MpzCore.MpzSub` | examples/multiprecision/mini-gmp/mini-gmp.c:2002-2013 | r = a - b for all signs and all aliasing |
| `MpzCore.AddUi` | examples/multiprecision/mini-gmp/mini-gmp.c:1915-1922 | r = a + b for a limb b |
| `MpzCore.SubUi` | examples/multiprecision/mini-gmp/mini-gmp.c:1924-1931 | r = a - b for a limb b |
| `MpzCore.MpzMul` | examples/multiprecision/mini-gmp/mini-gmp.c:2054-2090 | r = u v for all signs and all aliasing, normalised |
| `MpzMore.MpzAbs` | examples/multiprecision/mini-gmp/mini-gmp.c:1840-1845 | r = |x|, r may be x |
| `MpzMore.MpzMulUi` | examples/multiprecision/mini-gmp/mini-gmp.c:2029-2052 | r = u v for a limb v, normalised, r may be u |
| `MpzMore.CopyD` | examples/multiprecision/mini-gmp/mini-gmp.c:348-353 | copying limbs from the top down is right where the target starts no lower than the source |
| `MpzMore.ZeroLow` | examples/multiprecision/mini-gmp/mini-gmp.c:389-394 | the low limbs are zero, the others stay |
| `MpzMore.MpzMul2exp` | examples/multiprecision/mini-gmp/mini-gmp.c:2092-2124 | r = u 2^bits by whole limbs and a shift, normalised, r may be u |
| `MpzMore.MpzCmp` | examples/multiprecision/mini-gmp/mini-gmp.c:1810-1822 | the sign of a - b, from signs, lengths and limbs |
| `MpzMore.MpzCmpAbsUi` | examples/multiprecision/mini-gmp/mini-gmp.c:1824-1831 | the sign of |u| - v |
| `MpzMore.ScanOne` | examples/multiprecision/mini-gmp/mini-gmp.c:666-684 | whole zero limbs and then the bits of the first other one: the number of factors two |
| `MpzDiv.QuoRem` | examples/multiprecision/mini-gmp/mini-gmp.c:2168-2281 | the reference quotient and remainder satisfy n = q d + r, |r| < |d| and the sign rule of each rounding mode |
| `MpzDiv.RoundedUnique` | examples/multiprecision/mini-gmp/mini-gmp.c:2168-2281 | those conditions determine quotient and remainder |
| `MpzDiv.MpzDivQr` | examples/multiprecision/mini-gmp/mini-gmp.c:2170-2281 | floor, ceiling and truncating division with q or r null or equal to n or d; the result tells whether r is zero; a zero divisor is refused |
| `MpzDivFast.RoundMag` | examples/multiprecision/mini-gmp/mini-gmp.c:2343-2587 | how each mode rounds a signed number from its magnitude: away from zero exactly in the stated cases |
| `MpzDivFast.DivQ2exp` | examples/multiprecision/mini-gmp/mini-gmp.c:2343-2395 | the quotient by 2^bits is the one of mpz_div_qr in every mode |
| `MpzDivFast.DivR2exp` | examples/multiprecision/mini-gmp/mini-gmp.c:2397-2465 | the remainder by 2^bits is the one of mpz_div_qr in every mode |
| `MpzDivFast.DivQrUi` | examples/multiprecision/mini-gmp/mini-gmp.c:2533-2587 | quotient and remainder by a limb are those of mpz_div_qr in every mode, and |r| is returned |
| `MpzVars.Vars.Init` | examples/multiprecision/mini-gmp/mini-gmp.c:1421-1429 | a new variable behind the others, with value 0 |
| `MpzVars.Vars.Clear` | examples/multiprecision/mini-gmp/mini-gmp.c:1446-1451 | the last variables are gone, the others keep their values |
| `MpzVars.Vars.SetLimb` | examples/multiprecision/mini-gmp/mini-gmp.c:1488-1498 | this variable gets the limb and, here and below, every other variable keeps its value |
| `MpzVars.Vars.SetSign` | examples/multiprecision/mini-gmp/mini-gmp.c:1476-1486 | this variable gets -1, 0 or 1 |
| `MpzVars.Vars.Copy` | examples/multiprecision/mini-gmp/mini-gmp.c:1500-1515 | the value of the other variable |
| `MpzVars.Vars.SetAbs` | examples/multiprecision/mini-gmp/mini-gmp.c:1840-1845 | its absolute value |
| `MpzVars.Vars.Neg` | examples/multiprecision/mini-gmp/mini-gmp.c:1847-1852 | its negation |
| `MpzVars.Vars.Swap` | examples/multiprecision/mini-gmp/mini-gmp.c:1854-1860 | two variables exchange their values |
| `MpzVars.Vars.Add` | examples/multiprecision/mini-gmp/mini-gmp.c:1989-2000 | the sum, whichever of the three variables coincide |
| `MpzVars.Vars.Sub` | examples/multiprecision/mini-gmp/mini-gmp.c:2002-2013 | the difference, likewise |
| `MpzVars.Vars.AbsSubLimb` | examples/multiprecision/mini-gmp/mini-gmp.c:1891-1913 | |a| - x |
| `MpzVars.Vars.Mul` | examples/multiprecision/mini-gmp/mini-gmp.c:2054-2090 | the product, likewise |
| `MpzVars.Vars.MulLimb` | examples/multiprecision/mini-gmp/mini-gmp.c:2029-2052 | the product with a limb |
| `MpzVars.Vars.Mul2exp` | examples/multiprecision/mini-gmp/mini-gmp.c:2092-2124 | the product with 2^bits |
| `MpzVars.Vars.Div2exp` | examples/multiprecision/mini-gmp/mini-gmp.c:2479-2483 | the truncated quotient by 2^bits |
| `MpzVars.Vars.DivQ` | examples/multiprecision/mini-gmp/mini-gmp.c:2313-2317 | the truncated quotient, q may be n or d |
| `MpzVars.Vars.DivR` | examples/multiprecision/mini-gmp/mini-gmp.c:2331-2335 | the truncated remainder, r may be n or d |
| `MpzVars.Vars.DivQR` | examples/multiprecision/mini-gmp/mini-gmp.c:2295-2299 | both, into different variables that may be n or d |
| `MpzVars.Vars.DivQLimb` | examples/multiprecision/mini-gmp/mini-gmp.c:2619-2623 | the truncated quotient by a limb |
| `MpzVars.Vars.DivExact` | examples/multiprecision/mini-gmp/mini-gmp.c:2503-2507 | the exact quotient, where the assertion that nothing remains holds |
| `MpzVars.Vars.DivExactLimb` | examples/multiprecision/mini-gmp/mini-gmp.c:2665-2669 | the exact quotient by a limb, likewise |
| `MpzVars.Vars.SetPower` | examples/multiprecision/mini-gmp/mini-gmp.c:3590-3600 | setting bit i of a zero variable gives 2^i |
| `MpzVars.Vars.MakeOdd` | examples/multiprecision/mini-gmp/mini-gmp.c:2745-2756 | the variable loses all its factors two, and their number is returned |
| `MpzVars.Vars.Scan1` | examples/multiprecision/mini-gmp/mini-gmp.c:3937-3971 | from bit 0 of a positive number: the number of its factors two |
| `MpzVars.Vars.Sgn` | examples/multiprecision/mini-gmp/mini-gmp.c:1776-1780 | the sign of the value, read off the size |
| `MpzVars.Vars.SizeOf` | examples/multiprecision/mini-gmp/mini-gmp.c:2784-2785 | the number of limbs of the magnitude |
| `MpzVars.Vars.LimbOf` | examples/multiprecision/mini-gmp/mini-gmp.c:3173 | limb i of the magnitude |
| `MpzVars.Vars.Odd` | examples/multiprecision/mini-gmp/mini-gmp.h:126 | whether the value is odd, read off the low limb |
| `MpzVars.Vars.Cmp` | examples/multiprecision/mini-gmp/mini-gmp.c:1810-1822 | the sign of the difference of two values |
| `MpzVars.Vars.CmpAbs` | examples/multiprecision/mini-gmp/mini-gmp.c:1833-1838 | the sign of the difference of two magnitudes |
| `MpzVars.Vars.CmpAbsLimb` | examples/multiprecision/mini-gmp/mini-gmp.c:1824-1831 | the sign of |a| - x |
| `MpzVars.Vars.CmpLimb` | examples/multiprecision/mini-gmp/mini-gmp.c:1797-1808 | the sign of a - x |
| `MpzVars.Vars.RemLimb` | examples/multiprecision/mini-gmp/mini-gmp.c:2736 | the magnitude modulo a limb, from mpn_div_qr_1 |
| `MpzVars.Vars.ModLimb` | examples/multiprecision/mini-gmp/mini-gmp.c:2653-2657 | the magnitude modulo a limb |
| `BitOps.WordBit` | examples/multiprecision/mini-gmp/mini-gmp.c:3669-3693 | the C operators on words act bit by bit |
| `MpzBits.TBitNegate` | examples/multiprecision/mini-gmp/mini-gmp.c:3473-3486 | negation complements exactly the bits above the lowest set bit |
| `MpzBits.TBitLimb` | examples/multiprecision/mini-gmp/mini-gmp.c:3507-3513 | bit j of a number is bit j mod 64 of limb j / 64 |
| `MpzBits.TstBit` | examples/multiprecision/mini-gmp/mini-gmp.c:3495-3526 | the bit of the infinite two's complement, for either sign and any index |
| `MpzBits.AbsAddBit` | examples/multiprecision/mini-gmp/mini-gmp.c:3528-3567 | |d| + 2^i, growing as needed, normalised |
| `MpzBits.AbsSubBit` | examples/multiprecision/mini-gmp/mini-gmp.c:3569-3588 | |d| - 2^i when it is not negative, normalised |
| `MpzBits.SetBit` | examples/multiprecision/mini-gmp/mini-gmp.c:3590-3600 | sets bit i and no other bit |
| `MpzBits.ClrBit` | examples/multiprecision/mini-gmp/mini-gmp.c:3602-3612 | clears bit i and no other bit |
| `MpzBits.ComBit` | examples/multiprecision/mini-gmp/mini-gmp.c:3614-3621 | complements bit i and no other bit |
| `MpzLogic.StreamPrefix` | examples/multiprecision/mini-gmp/mini-gmp.c:3669-3693 | the limbs converted so far are the number modulo a power of B, in two's complement |
| `MpzLogic.LogicBits` | examples/multiprecision/mini-gmp/mini-gmp.c:3630-3842 | combining limbs and then signs gives every bit of the result |
| `MpzLogic.MpzLogicOp` | examples/multiprecision/mini-gmp/mini-gmp.c:3630-3842 | and, or and xor agree with the two's complement meaning at every bit, for all signs, lengths and aliasing; the result is normalised |
| `Gcd.GcdGreatest` | examples/multiprecision/mini-gmp/mini-gmp.c:2758-2819 | the generator of the integer combinations is the greatest common divisor |
| `Gcd.GcdUnique` | examples/multiprecision/mini-gmp/mini-gmp.c:2758-2819 | there is only one |
| `Gcd.CofactorLoop` | examples/multiprecision/mini-gmp/mini-gmp.c:2900-2949 | on the variables of the program: the subtract-and-shift loop ends, keeps the cofactor equations with determinant a power of two, and leaves 2^power h as a combination |
| `Gcd.HalvingExact` | examples/multiprecision/mini-gmp/mini-gmp.c:2965-2975 | when a cofactor is odd, both are even after the shift, so each halving is exact |
| `Gcd.HalveCofactors` | examples/multiprecision/mini-gmp/mini-gmp.c:2965-2975 | on the variables of the program: removing the power of two leaves cofactors of the gcd, every halving is exact |
| `Gcd.GcdExt` | examples/multiprecision/mini-gmp/mini-gmp.c:2821-3001 | g = gcd(u, v) = s u + t v for all signs and zeros, with a cofactor at most half of the other number over g; g, s and t may be u or v, s and t may be null, and all other variables keep their values |
| `GcdBinary.Gcd11` | examples/multiprecision/mini-gmp/mini-gmp.c:2679-2720 | the gcd of two limbs, not both zero |
| `GcdBinary.GcdUi` | examples/multiprecision/mini-gmp/mini-gmp.c:2722-2743 | the gcd with a limb; 0 is returned when the limb is 0; g may be u or null |
| `GcdBinary.MpzGcd` | examples/multiprecision/mini-gmp/mini-gmp.c:2758-2819 | the gcd for all signs and zeros; g may be u or v, all other variables keep their values |
| `Gcd.ExtCofactor` | examples/multiprecision/mini-gmp/mini-gmp.c:2821-3001 | a common divisor that is a combination is the gcd, whichever input comes first |
| `GcdBinary.MpzInvert` | examples/multiprecision/mini-gmp/mini-gmp.c:3039-3069 | succeeds exactly when |m| > 1 and gcd(u, m) = 1, and then 0 < r < |m| and m divides r u - 1; else r is unchanged; r may be u or m |
| `PowMod.PowUi` | examples/multiprecision/mini-gmp/mini-gmp.c:3074-3093 | b^e, with all 64 exponent bits from the top; r may be b |
| `MpzPreinv.ShiftedInverse` | examples/multiprecision/mini-gmp/mini-gmp.c:3124-3137 | the inverse of a divisor serves the shifted divisor once its shift is set to zero |
| `MpzPreinv.InvertModulus` | examples/multiprecision/mini-gmp/mini-gmp.c:3124-3137 | the inverse, and the modulus shifted up without a carry |
| `MpzPreinv.Reduce` | examples/multiprecision/mini-gmp/mini-gmp.c:3184-3185 | the variable is reduced by mpn_div_qr_preinv and normalised |
| `MpzPreinv.SetBase` | examples/multiprecision/mini-gmp/mini-gmp.c:3146-3168 | the base reduced by the shifted modulus, and subtracted from it when negative |
| `PowMod.MpzPowm` | examples/multiprecision/mini-gmp/mini-gmp.c:3102-3205 | b^e modulo m for every sign of b and e, reduced by the kept inverse with shift zero and at the end with its own shift; dies exactly on m = 0 or a missing inverse; r may be b, e or m |
| `PowMod.PowmUi` | examples/multiprecision/mini-gmp/mini-gmp.c:3207-3212 | the same for a limb exponent |
| `PowMod.PowmReduced` | examples/multiprecision/mini-gmp/mini-gmp.c:3118-3122 | the result is in 0..|m|-1 if and only if not both e = 0 and |m| = 1 |
| `PowMod.ZeroExponentModOne` | examples/multiprecision/mini-gmp/mini-gmp.c:3118-3122 | for e = 0 and m = 1 the result is 1, which is not reduced |
| `Root.Tangent` | examples/multiprecision/mini-gmp/mini-gmp.c:3239-3263 | x^z + (z - 1) u^z >= z x u^(z - 1) |
| `Root.NewtonAbove` | examples/multiprecision/mini-gmp/mini-gmp.c:3239-3263 | a Newton step never goes below the root |
| `Root.NewtonBelow` | examples/multiprecision/mini-gmp/mini-gmp.c:3239-3263 | from above the root a step goes down |
| `Root.NewtonStops` | examples/multiprecision/mini-gmp/mini-gmp.c:3239-3263 | where a step does not go down, the bound is the root |
| `Root.RootRem` | examples/multiprecision/mini-gmp/mini-gmp.c:3215-3273 | the truncated z-th root with the sign of y and the remainder y - x^z; refused exactly for z = 0 or an even root of a negative number; x and r may be null, and may be y |
| `Fermat.EuclidLemma` | examples/multiprecision/mini-gmp/mini-gmp.c:3376-3400 | a prime that divides a product divides a factor |
| `Fermat.Binomial` | examples/multiprecision/mini-gmp/mini-gmp.c:3376-3400 | the binomial theorem, for Fermat's theorem |
| `Fermat.FermatLittle` | examples/multiprecision/mini-gmp/mini-gmp.c:3376-3400 | a^(p - 1) is 1 modulo a prime p that does not divide a |
| `Fermat.RootsOfOne` | examples/multiprecision/mini-gmp/mini-gmp.c:3376-3400 | modulo a prime only 1 and -1 square to 1 |
| `Prime.MaskLookup` | examples/multiprecision/mini-gmp/mini-gmp.c:3406-3428 | the bit mask answers 2 exactly for the odd primes below 64 |
| `Prime.PrimeCoprime` | examples/multiprecision/mini-gmp/mini-gmp.c:3430-3431 | a prime above 29 is coprime to the product of the small primes |
| `Prime.FilteredPrime` | examples/multiprecision/mini-gmp/mini-gmp.c:3433-3435 | odd, coprime to the product and below 31^2 means prime |
| `Prime.PrimePasses` | examples/multiprecision/mini-gmp/mini-gmp.c:3376-3400 | every base that a prime does not divide passes the strong test for it |
| `Prime.PrimeAllPass` | examples/multiprecision/mini-gmp/mini-gmp.c:3447-3464 | a prime passes with every base that is tried |
| `Prime.MillerRabin` | examples/multiprecision/mini-gmp/mini-gmp.c:3376-3400 | on the variables of the program: answers yes if and only if the base passes the strong test for |n| = 2^k q + 1, that is, a^q is 1, or a^(2^i q) is -1 for some i < k |
| `Prime.ProbabPrime` | examples/multiprecision/mini-gmp/mini-gmp.c:3409-3468 | 2 if and only if |n| is a prime below 31^2; 1 if and only if |n| >= 31^2 is odd, coprime to the product of the small primes, and every base of the Euler sequence i^2 + i + 41 below |n| - 1, up to reps of them, passes the strong test; 0 otherwise, so never for a prime; no variable of the caller changes |
| `Radix.CanonicalUnique` | examples/multiprecision/mini-gmp/mini-gmp.c:1264-1306 | a number has one digit string without leading zero in each base |
| `RadixGet.GetBaseInfo` | examples/multiprecision/mini-gmp/mini-gmp.c:1187-1200 | bb is the largest power of b that fits in a limb, exp its exponent |
| `RadixGet.LimbGetStr` | examples/multiprecision/mini-gmp/mini-gmp.c:1243-1262 | the digits of a limb, least significant first, none leading |
| `RadixGet.GetStrOther` | examples/multiprecision/mini-gmp/mini-gmp.c:1264-1306 | chunks, padding and reversal give the canonical digits of the number |
| `RadixGet.ReverseInPlace` | examples/multiprecision/mini-gmp/mini-gmp.c:1298-1303 | the swap loop reverses |
| `RadixBits.GetStrBits` | examples/multiprecision/mini-gmp/mini-gmp.c:1212-1239 | cutting bits across limb borders gives the canonical digits |
| `RadixSet.SetStrBits` | examples/multiprecision/mini-gmp/mini-gmp.c:1328-1357 | packing digits into limbs gives their value, normalised, within the limbs allocated |
| `RadixChunks.ReadChunk` | examples/multiprecision/mini-gmp/mini-gmp.c:1376-1380 | a chunk of digits is read into one limb without wrap-around |
| `RadixChunks.SetStrOther` | examples/multiprecision/mini-gmp/mini-gmp.c:1361-1397 | multiplying by bb and adding chunks gives the value within the limbs allocated; only a lone limb can be zero |
| `RadixText.DigitsUnique` | examples/multiprecision/mini-gmp/mini-gmp.c:4058-4121 | any canonical digit string is the one repeated division produces |
| `RadixText.SizeInBase` | examples/multiprecision/mini-gmp/mini-gmp.c:4005-4055 | exactly the number of digits, 1 for zero |
| `RadixText.GetStr` | examples/multiprecision/mini-gmp/mini-gmp.c:4058-4121 | sign and digits in the alphabet of the base for every integer; refused exactly for |base| > 36 |
| `RadixText.SetStr` | examples/multiprecision/mini-gmp/mini-gmp.c:4123-4225 | what the string denotes after spaces, sign and prefix, or -1 and zero; RadixRead says what that is |
| `RadixText.RoundTrip` | examples/multiprecision/mini-gmp/mini-gmp.c:4058-4225 | mpz_set_str undoes mpz_get_str for every integer and every base; bases -1, 0 and 1 print in ten |
| `RadixText.RoundTripDecimal` | examples/multiprecision/mini-gmp/mini-gmp.c:4058-4225 | decimal text also reads back with base 0 |
| `RadixRead.RoundTripPrefixed` | examples/multiprecision/mini-gmp/mini-gmp.c:4141-4164 | with base 0, for every number and both signs: 0x or 0X and hexadecimal digits in either case, 0b or 0B and binary digits, 0 and octal digits read back |
| `RadixRead.TextCase` | examples/multiprecision/mini-gmp/mini-gmp.c:4066-4078 | no upper-case letter in the text of a base >= 0, no lower-case letter for a negative one |
| `RadixRead.SpacesInFront` | examples/multiprecision/mini-gmp/mini-gmp.c:4136-4137 | any of the six space characters in front of a string changes nothing |
| `RadixRead.SpaceInside` | examples/multiprecision/mini-gmp/mini-gmp.c:4172-4177 | nor does one between the digits |
| `RadixRead.RefusedExactly` | examples/multiprecision/mini-gmp/mini-gmp.c:4166-4200 | the digits are refused if and only if there is none or some character is neither a space nor a digit of the base |
| `Uint64.AddWithCarry` | examples/multiprecision/overlays/uint64gmp.h:104-113 | the carry read off the wrapped sum is the right one |
| `Uint64.SubWithBorrow` | examples/multiprecision/overlays/uint64gmp.h:120-130 | the borrow read off the wrapped difference is the right one |
| `Uint64.Add3` | examples/multiprecision/overlays/uint64gmp.h:137-149 | the two carries of a triple sum add up to its high limb |
| `RingQueue.Queue.constructor` | src/server/queue.c:20-28 | an empty queue of any capacity from 1 |
| `RingQueue.Queue.Pop` | src/server/queue.c:30-37 | takes the oldest element |
| `RingQueue.Queue.SimplePush` | src/server/queue.c:39-42 | appends when there is room |
| `RingQueue.Queue.Resize` | src/server/queue.c:44-56 | doubling the ring keeps the sequence across the wrap-around |
| `RingQueue.Queue.Push` | src/server/queue.c:58-63 | appends always |
| `RingQueue.RingMove` | src/server/queue.c:44-56 | moving the part behind the pointer to the end of the doubled array keeps the ring |
| `KeyTable.Table.LookupIndex` | src/server/arraylist.c:35-42 | the first place of the key, or -1 |
| `KeyTable.Table.Find` | src/server/arraylist.c:44-51 | the value at the first place of the key, or nothing |
| `KeyTable.Table.Remove` | src/server/arraylist.c:53-61 | the last entry replaces the first one with this key; nothing happens without one |
| `KeyTable.Table.Append` | src/server/arraylist.c:77-84 | adds an entry at the end, growing as needed, whether or not the key is there |
| `KeyTable.ListsSwapOut` | src/server/arraylist.c:53-61 | where keys are different, swapping with the last entry removes exactly this key |
| `KeyTable.ListsFind` | src/server/arraylist.c:44-51 | where keys are different, the first place of a key holds its value |
| `KeyTable.Table.Length` | src/server/arraylist.c:86-88 | the number of entries |
| `Framing.SplitConcat` | src/server/server-unix.c:501-545 | splitting what follows only touches the last field |
| `Framing.SplitJoin` | src/server/request.c:43-58 | splitting undoes joining fields without separators |
| `Framing.ChunkingIrrelevant` | src/server/server-unix.c:501-578 | however a stream is cut into reads, the lines handed on and the unfinished tail are those of the whole stream |
| `Framing.ReadBuf.PrepareRead` | src/server/readbuf.c:34-39 | room for more bytes, contents kept |
| `Framing.ReadBuf.HaveRead` | src/server/readbuf.c:41-44 | the bytes are appended |
| `Framing.ReadBuf.HaveTaken` | src/server/readbuf.c:46-50 | the first bytes go, the rest moves to the front |
| `Framing.ReadBuf.TakeLines` | src/server/server-unix.c:501-545 | exactly the complete lines in order, the buffer keeps the tail |
| `Requests.SamePrefixExact` | src/server/request.c:76-84 | strncmp up to one place past the field tests equality |
| `Requests.CountSemicolons` | src/server/request.c:33-41 | one less than the number of fields |
| `Requests.CopyUpToSemicolon` | src/server/request.c:43-58 | the next field and where the following one starts |
| `Requests.ParseRequest` | src/server/request.c:60-128 | what the fields of a line mean: a request, a new limit, or nothing |
| `Requests.AtoiText` | src/server/request.c:117-120 | atoi undoes decimal printing |
| `Requests.AtoiReads` | src/server/request.c:79-82 | it reads any decimal number behind spaces, with or without a plus sign, up to the first character that is no digit |
| `Requests.AtoiNothing` | src/server/request.c:79-82 | and gives 0 where no number follows |
| `Requests.ParseRunFields` | src/server/request.c:96-128 | parsing undoes joining for every run or runstdin request whose fields have no semicolon, newline or NUL |
| `Requests.ParseInterruptFields` | src/server/request.c:84-91 | the same for interrupt requests |
| `Requests.ParseParallelFields` | src/server/request.c:76-83 | the same for a new process limit |
| `Requests.RemoveFromQueue` | src/server/request.c:175-187 | the queue keeps exactly the requests with other ids, in their order |
| `WriteBuffer.WriteBuf.PrepareWrite` | src/server/writebuf.c:28-34 | the rest of the first pending message |
| `WriteBuffer.WriteBuf.HaveWritten` | src/server/writebuf.c:36-53 | takes the written bytes off the first message, moving on to the next one at its end |
| `WriteBuffer.WriteBuf.PushWriteData` | src/server/writebuf.c:63-71 | appends a message to the pending ones |
| `WriteBuffer.WriteConserves` | src/server/writebuf.c:36-53 | bytes written and bytes pending make up what was pending |
| `WriteBuffer.NothingLost` | src/server/writebuf.c:28-71 | over every run of pushes and partial writes, bytes written followed by bytes pending are the messages in push order |
| `ServerInv.PlacedCancel` | src/server/request.c:175-187 | cancelling an id keeps queue, table and status in agreement |
| `ServerInv.ToldStart` | src/server/server-unix.c:379-397 | starting a queued request adds its one S message; ServerSaid.StartedReads says what it reads |
| `ServerInv.ToldEndMsg` | src/server/server-unix.c:399-425 | finishing a running request adds its one F message, after the S |
| `ServerInv.WiredPush` | src/server/server-unix.c:279-286 | a pushed message extends the stream of its client and of no other |
| `ServerSaid.StartedReads` | src/server/server-unix.c:379-397 | an S message is one line whose fields are exactly S and the id of the request |
| `ServerSaid.EndedReads` | src/server/server-unix.c:399-425 | an F message ends in a newline and its fields are F, the id of the request and those of the detail |
| `ServerSaid.ParsedPlain` | src/server/request.c:60-128 | the id of a parsed request has neither a semicolon nor a newline |
| `ServerSaid.LinesPlain` | src/server/server-unix.c:501-517 | no line that is cut out of a buffer has a newline |
| `ServerRuns.RunRequestKeeps` | src/server/server-unix.c:468-499 | running a request with a free slot keeps every invariant, whether or not its client is still there |
| `ServerRuns.ReapKeeps` | src/server/server-unix.c:427-466 | reaping an unreaped child keeps every invariant; it is in the table |
| `ServerRuns.ReadKeeps` | src/server/server-unix.c:501-578 | any read, with any number of lines in it, keeps every invariant |
| `ServerRuns.WriteKeeps` | src/server/server-unix.c:366-377 | a POLLOUT report finds data; any partial or failed write keeps every invariant, unless a write to this client had failed before: then the assertion of prepare_write fails |
| `ServerRuns.ScheduleKeeps` | src/server/server-unix.c:580-586 | afterwards the queue is empty or at least the limit of processes run |
| `ServerRuns.ApplyKeeps` | src/server/server-unix.c:588-638 | every event the operating system allows keeps the invariant, but for a write to a client still flagged as writing, which aborts |
| `ServerRuns.RunKeeps` | src/server/server-unix.c:588-638 | the invariant holds in every state of every run that is not aborted |
| `ServerRuns.RunForward` | src/server/server-unix.c:588-638 | over every run a request only moves forward: queued, then running or dropped, then finished |
| `ServerRuns.InvMeans` | src/server/server-unix.c:379-586 | the invariant says: each request is in exactly the place its status tells; never more processes than the largest limit so far; bytes written and pending are the messages; all complete lines were handled; POLLOUT exactly when data is pending; one S for each started request and no other, at most one F, for a finished request and after its S; the S goes to the home connection, and the F too while that lasts; each message reads S or F and the id of the request with its serial number |
| `ServerSteps.InterruptLine` | src/server/request.c:175-187 | from every reachable state an interrupt leaves in the queue exactly the jobs with other ids, in the old order; the others are dropped; processes, clients, limit and messages stay |
| `ServerSteps.RunLineStarts` | src/server/server-unix.c:521-524 | a run request with a free slot becomes one process under its pid, and its client gets one more message, which reads S and its id, and is polled for writing |
| `ServerSteps.RunLineWaits` | src/server/server-unix.c:525-527 | without a free slot it is the last in the queue and nothing else changes |
| `ServerSteps.LimitLine` | src/server/request.c:76-83 | after a parallel line the limit is its number, at least 1, and queue, processes and clients stay |
| `ServerSteps.ProcessesBounded` | src/server/server-unix.c:518-528 | over every run never more processes than the initial limit or some limit that a line read so far asked for |
| `ServerSteps.OtherLine` | src/server/request.c:60-128 | a line that is not a request changes nothing |
| `ServerSteps.ReadMeans` | src/server/server-unix.c:501-578 | a read accepts exactly the run requests among its complete lines, in their order; the last limit among them counts |
| `ServerSteps.ScheduleMeans` | src/server/server-unix.c:580-586 | jobs are taken from the front of the queue only: those with a client start, the others are dropped, all other requests stay |
| `ServerSteps.OldestFirst` | src/server/server-unix.c:580-586 | over every run, of two waiting requests the one with the smaller serial number leaves the queue first |
| `ServerSteps.ChildrenMean` | src/server/server-unix.c:427-466 | exactly the reaped children leave the table, exactly their requests are finished; queue, clients and limit stay |
| `ServerSteps.ApplyClients` | src/server/server-unix.c:588-638 | accept adds one client, close removes one, no other event changes who is connected |
| `ServerSteps.StopsExactly` | src/server/server-unix.c:552-562 | over every run the server has stopped if and only if it serves a single client and the last event closed its last client |
| `ServerSteps.ClientsExactly` | src/server/server-unix.c:143-159 | over every run the clients are exactly those accepted and not closed since |
| `ServerSteps.NeverStarts` | src/server/request.c:175-187 | over every run a dropped request stays dropped, and no S message is ever sent for it |
| `ServerCrash.CrashExactly` | src/server/server-unix.c:366-377 | a run aborts if and only if some connection is written to after an earlier write to it failed |
| `ServerCrash.TwoWrites` | src/server/writebuf.c:28-34 | from every reachable state with data pending, a failed write and then any write to the same client abort |
| `ServerCrash.AbortingRun` | src/server/server-unix.c:366-377 | a run of four events that aborts: accept, a request, a failed write, a write |
| `ServerCrash.PlayedCrash` | src/server/server-unix.c:588-638 | the main loop ends aborted exactly under that condition |
| `Stores.JobStore.Enqueue` | src/server/server-unix.c:521-528 | the ring queue gets the request at its end |
| `Stores.JobStore.Dequeue` | src/server/server-unix.c:580-586 | the oldest queued request |
| `Stores.JobStore.RemoveId` | src/server/request.c:175-187 | the ring queue keeps the requests with other ids |
| `Stores.JobStore.Add` | src/server/server-unix.c:468-499 | a new pid enters the process table |
| `Stores.JobStore.Take` | src/server/server-unix.c:427-466 | the process of a pid leaves the table, with its request |
| `Stores.ClientStore.Push` | src/server/server-unix.c:279-286 | the write buffer of this client, and of no other, gets the message |
| `Stores.ClientStore.Prepare` | src/server/writebuf.c:28-34 | the rest of the first message of this client, which is flagged as writing |
| `Stores.ClientStore.Written` | src/server/writebuf.c:36-53 | the bytes leave the write buffer of this client and the flag is cleared |
| `Stores.ClientStore.Received` | src/server/readbuf.c:34-44 | the bytes enter the read buffer of this client |
| `Stores.ClientStore.TakeLines` | src/server/server-unix.c:501-545 | the complete lines of this client, whose buffer keeps the tail |
| `Stores.ClientStore.Add` | src/server/server-unix.c:143-159 | a client with empty buffers enters the client table |
| `Stores.ClientStore.Remove` | src/server/server-unix.c:552-562 | a client leaves the client table |
| `Server.Listen` | src/server/server-unix.c:211-277 | the initial state, over empty structures |
| `Server.Server.PollLookup` | src/server/server-unix.c:102-109 | a place of the descriptor in the poll list, or -1 when it has none |
| `Server.Server.QueueWrite` | src/server/server-unix.c:279-286 | pushes the message and asks for POLLOUT |
| `Server.Server.RunRequest` | src/server/server-unix.c:468-499 | the step of the state machine, for whatever pid fork returns; every message in the record reads as its request says |
| `Server.Server.HandleLine` | src/server/server-unix.c:518-537 | the step of the state machine for one line, whose four cases are InterruptLine, RunLineStarts or RunLineWaits, LimitLine and OtherLine |
| `Server.Server.SubmitRun` | src/server/server-unix.c:521-528 | a new request starts if and only if a slot is free, and else is queued |
| `Server.Server.HandleAll` | src/server/server-unix.c:501-545 | the lines one after the other |
| `Server.Server.HandleMsg` | src/server/server-unix.c:501-545 | the read event of the state machine, for any bytes |
| `Server.Server.HandleChildEvents` | src/server/server-unix.c:427-466 | the event of the state machine, for whatever children wait3 returns |
| `Server.Server.ScheduleNewJobs` | src/server/server-unix.c:580-586 | the event of the state machine; no queued request stays beside a free slot |
| `Server.Server.AcceptClient` | src/server/server-unix.c:143-159 | the accept event |
| `Server.Server.PollListRemove` | src/server/server-unix.c:121-129 | the entry of this descriptor, and no other, is marked dead |
| `Server.Server.CloseClient` | src/server/server-unix.c:552-562 | the close event; stops the server with the last client if asked |
| `Server.Server.WriteToClient` | src/server/server-unix.c:366-377 | the write event, for any number of bytes written or a failure; aborts exactly as the state machine does |
| `Server.Server.WriteOnce` | src/server/server-unix.c:366-374 | prepare_write, write, and have_written unless the write failed |
| `Server.Server.ReadOnClient` | src/server/server-unix.c:565-578 | nothing, the close event or the read event |
| `Server.Server.PollListClean` | src/server/server-unix.c:111-119 | exactly the live entries stay |
| `Server.Server.Dispatch` | src/server/server-unix.c:603-636 | events allowed at that point, even though poll reported before earlier entries were handled; the assertion on the listening socket holds |
| `Server.Server.Round` | src/server/server-unix.c:595-637 | one turn of the main loop ends and is a sequence of allowed events; unless it aborts the invariant holds again |
| `Server.Server.Serve` | src/server/server-unix.c:588-638 | any number of turns over the real queue, tables and buffers is a run of the state machine |
| `ServerLoop.PlaysIsRun` | src/server/server-unix.c:588-638 | what the loop does is a run in the sense of the theorems |
| `WinQuote.AppendQuoted` | src/server/server-win.c:313-361 | a quoted argument is read back as itself |
| `WinQuote.AppendBare` | src/server/server-win.c:362-368 | an argument left bare is read back as its fields between tabs |
| `WinQuote.ArgumentString` | src/server/server-win.c:290-370 | how the whole argument string is read back by Microsoft's rules, for every list of arguments; the list itself comes back if and only if no argument has a tab without a space or a double quote in it |
| `WinQuote.RoundTripArgs` | src/server/server-win.c:281-370 | the pieces that are read back are the arguments if and only if no argument has a tab without a space or a double quote in it |
| `WinQuote.TabIsLost` | src/server/server-win.c:297-308 | an argument that is one tab is lost |
| `Mersenne.RefillOne` | examples/multiprecision/random/mt19937-64.c:120-129 | one in-place replacement extends the recurrence by one word |
| `Mersenne.Generator.Refill` | examples/multiprecision/random/mt19937-64.c:120-129 | the in-place refill turns a block of the recurrence into the next one; MersenneBits.WordBit gives the recurrence bit by bit |
| `Mersenne.Generator.Seed` | examples/multiprecision/random/mt19937-64.c:72-77 | the seeded block, nothing drawn yet |
| `Mersenne.Generator.Next` | examples/multiprecision/random/mt19937-64.c:107-142 | the n-th number drawn is the tempering of word 312 + n of the recurrence, which MersenneBits.TemperBits gives bit by bit; an unseeded generator is seeded with 5489 |
| `Mersenne.TemperInjective` | examples/multiprecision/random/mt19937-64.c:136-139 | tempering is injective |
| `MersenneBits.WordBit` | examples/multiprecision/random/mt19937-64.c:120-129 | bit j of word 312 + n is bit j of word 156 + n, xor bit j + 1 of the upper 33 bits of word n joined to the lower 31 of word n + 1, xor bit j of the matrix constant if that join is odd |
| `MersenneBits.MixBit` | examples/multiprecision/random/mt19937-64.c:121-122 | bits 31 and up come from the first word, the others from the second |
| `MersenneBits.TemperBits` | examples/multiprecision/random/mt19937-64.c:136-139 | the four tempering steps, bit by bit, with their shifts and masks |
| `MersenneBits.SameBits` | examples/multiprecision/random/mt19937-64.c:107-142 | bits 0 to 63 determine a word, so the bitwise statements say all of it |
| `MersenneBits.FirstNumber` | examples/multiprecision/random/mt19937-64.c:115-141 | the first number of the default seed is 14514284786278117030 |
| `SparseArrays.Onto` | src/jessie/tests/demo/sparse_array.c:91-92 | n different numbers below n are all of them |
| `SparseArrays.SparseArray.constructor` | src/jessie/tests/demo/sparse_array.c:55-63 | every place reads 0 |
| `SparseArrays.SparseArray.Get` | src/jessie/tests/demo/sparse_array.c:71-77 | the value at the place |
| `SparseArrays.SparseArray.Room` | src/jessie/tests/demo/sparse_array.c:90-93 | a new index always finds n < sz |
| `SparseArrays.SparseArray.Set` | src/jessie/tests/demo/sparse_array.c:88-95 | this place reads v, every other what it read before |

## Left out

- Sockets, signals, fork and exec, resource limits, temporary files and `kill`: system calls return any value the operating system guarantees, and a killed process is one that exits later.
- The detail of an F message after the id (exit code, time, output file) is an arbitrary string, and messages too long for their buffer are not modelled.
- Where the F message of a request goes once its client has disconnected: it may be dropped, or reach a client that was given the same descriptor.
- `have_taken` copies overlapping memory with memcpy, which C leaves undefined; the model moves the bytes as its comment intends.
- Allocation failure, the sizes of text buffers and the fixed command buffer of the Windows server.
- C integer widths of sizes and counters, and the overflow of atoi, which C leaves undefined.
- The command name in front of the Windows arguments, which is read by other rules.
- Requests.Atoi: does not model overflow, because C gives it no meaning.
- init_by_array64, popcount, Hamming distance, scans, import and export, factorials, binomials and lcm: they would only add easy members.
- Conversions between numbers and floating point.
- Thin wrappers around the operations above, and the declarations and benchmarks around them.
