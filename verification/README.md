# Verified model of the bundled libtcc run-time headers

The headers under `moonloader/lib/libtcc/include` carry three pieces of real code: a
small C99 math library, the variadic-argument macros, and a hybrid stack/heap
allocator. This project models them in Dafny 4.11 and proves what they promise.
`dafny verify dfyconfig.toml` checks everything.

## What is modelled

**Floating point.** A `double` or `float` is its 64- or 32-bit word. `Value` gives
the number a word stands for: NaN, an infinity, or a sign and a magnitude counted in
units of the least subnormal number (2^-1074 for binary64, 2^-149 for binary32).
Every arithmetic operation is the exact result, a dyadic fraction `n / 2^k` of units,
rounded once in one of the four directions of IEEE 754-2008 section 4.3, with overflow
as in section 7.4. Rounding is a short recursion. `RoundMagIsIeee` proves it to be, on
magnitudes, the rounding that the standard defines, and the only one; `RoundIsIeee` does the
same for signed numbers, for each direction by name and with overflow, and `IsScaled` and
`IsFdim` say with it what `scalbn` and `fdim` return. Nearly all lemmas hold for any
format with `eb` exponent and `mb` fraction bits; `B64` and `B32` are two of them.
Every C assignment is taken to store a binary64 or binary32 number, which is what the
start-up code asks of the FPU (`moonloader/lib/libtcc/lib/crt1.c:57-61`). The rounding
direction is a parameter of every operation that rounds, so the theorems hold whatever
the control word says.

**Variadic arguments.** The list pointer of Win64, i386, ARM and RISC-V is a field that
each `va_arg` advances with the mask arithmetic of the macros; `&`, `|` and `~` are
defined bit by bit in `Binary`, so that each mask has to be proved to do its job. The
caller's side is `Pass`, which stores any argument list by the slot rule, and the
theorem is that the walk returns the list, wherever the caller keeps the copies of what is
passed by reference.

**_malloca and _freea.** A state machine over bytes of memory, allocated blocks, stack
frames, and the pointers a client may still use. Addresses that `malloc` and `alloca`
answer with are parameters; all that is asked of them is that they are fresh. The
class `Process` is the code, each method proved to perform one step of the machine, and
the run theorems are about all sequences of steps.

| file | contents |
|---|---|
| `Wrappers.dfy`, `Binary.dfy`, `Memory.dfy` | options, powers of two, bit operations, bytes and words in memory |
| `Ieee754.dfy`, `Arithmetic.dfy` | formats, values, rounding, operations |
| `Scaling.dfy` | `scalbn`, `ldexp`, `frexp`, `scalbnf`, `ldexpf`, `frexpf` |
| `Directions.dfy` | the four rounding directions on signed numbers, with overflow |
| `DoubleRounding.dfy` | sums of floats computed in double |
| `Rounding.dfy` | `round`, `roundf`, `lround`, `llround`, `lroundf`, `llroundf` |
| `Classify.dfy` | `fpclassify` and the predicates of `math.h`, `fmin`, `fmax`, `fdim` |
| `Gamma.dfy` | `tgamma`, `lgamma` |
| `VarArgs.dfy` | `va_start`, `va_arg` |
| `Malloca.dfy` | `_malloca`, `_freea` |

## Where the code and its promise part

- `tgamma(25)` is not always (25 - 1)! correctly rounded. The products up to 22! are
  exact and 23! is rounded once, but 24! is rounded twice, and with rounding downward or
  toward zero the second rounding loses a unit. `FactorialsCorrect` states exactly when
  the result is right: for every integer 1 <= x <= 25 and every direction except x = 25
  with Downward or TowardZero. `Factorial24` holds the counterexample.
- `tgamma(-0.0)` is +infinity in the code, where ISO/IEC 9899:1999 (F.9.5.4) asks for a
  pole of the sign of the zero; `ExactValues` states that the sign is right if and only if
  the zero is positive.
- `lgamma(+infinity)` is NaN, infinity minus infinity at the end of Stirling's formula, where
  ISO/IEC 9899:1999 (F.9.5.3, F.9.5.4) asks for +infinity, of `tgamma` as well.
  `StirlingLosesInfinity` gives the exact condition: from 12 up, lgamma of a number is NaN
  if and only if the number is +infinity, provided that `log` does its part.
- `frexp` undoes `scalbn` on a fraction only as long as no digit is lost and nothing
  overflows; `ScaleThenSplit` and, for the code, `ScalbnThenFrexp` give the condition as an
  equivalence, and `NormalScalingSplitsBack` the range -1021 <= e <= 1024 in which it always
  holds.
- The block that `_malloca` allocates has room for marker and data exactly when
  `size + marker` does not wrap, and marking it keeps the state valid exactly then
  (`ValidExactlyWithoutWrap`). After a request that wrapped, a client that keeps to its size
  can destroy the marker of another live block (`WrappedRequestHarms`); the run theorems are
  about clients whose sizes do not wrap.

## Model

| member | source | states |
|---|---|---|
| Ieee754.RoundMagIsIeee | moonloader/lib/libtcc/include/math.h:387-390 | For every exact dyadic number and each of truncate, away and nearest, the rounding used for the FE_ directions is the unique number of p bits that IEEE 754 section 4.3 asks for: greatest below, least above, or nearest with ties to the even significand. |
| Ieee754.ValueOfBits | moonloader/lib/libtcc/include/tcc/tcc_libm.h:50 | The union view of a double or float: encoding a number and decoding the word gives the number back, for every number of the format. |
| Ieee754.BitsOfValue | moonloader/lib/libtcc/include/tcc/tcc_libm.h:50 | Decoding a word and encoding the number gives the same bits, for every word that is not a NaN. |
| Directions.RoundIsIeee | moonloader/lib/libtcc/include/math.h:387-390 | For every exact result and either sign, downward gives the greatest number of the format not above it, upward the least not below it, toward zero the greatest magnitude not above its own, to nearest the nearest with ties to the even significand; downward and upward give an infinity where no finite number is on that side, to nearest does from 2^emax * (2 - 2^-p) on, toward zero never; and Round is the only such function. |
| Directions.MaxMagIsGreatest | moonloader/lib/libtcc/include/tcc/tcc_libm.h:217-234 | The greatest finite number, which overflow gives in the inward directions, is a number of the format, and none is greater. |
| Directions.AddIsIeee | moonloader/lib/libtcc/include/tcc/tcc_libm.h:145-146 | A sum that is not zero is the exact sum, rounded as the standard says. |
| Directions.AddToZero | moonloader/lib/libtcc/include/tcc/tcc_libm.h:145-146 | A sum that is zero has the sign that section 6.3 gives it. |
| Directions.MulIsIeee | moonloader/lib/libtcc/include/tcc/tcc_libm.h:232-233 | A product is the exact product, rounded as the standard says. |
| Directions.ConvertIsIeee | moonloader/lib/libtcc/include/tcc/tcc_libm.h:277-301 | So is the conversion of a number between double and float. |
| Scaling.ScaleBIsIeee | moonloader/lib/libtcc/include/tcc/tcc_libm.h:217-234 | The reference for scalbn: NaN and infinities come back, and any other result is x * 2^n, rounded by direction with overflow. |
| Scaling.Scalbn | moonloader/lib/libtcc/include/tcc/tcc_libm.h:217-234 | For every double, every n and every direction, the up to three multiplications and the clamping give x * 2^n rounded once as the standard says for that direction (IEEE 754 scaleB), with overflow to infinity or to the greatest number, and NaN, infinities, signed zeros and subnormals included. |
| Scaling.ScaleUpTwice | moonloader/lib/libtcc/include/tcc/tcc_libm.h:219-224 | Scaling up in two steps equals scaling once: an early overflow, to infinity or to the greatest number, is never undone. |
| Scaling.ScaleDownTwice | moonloader/lib/libtcc/include/tcc/tcc_libm.h:225-230 | Scaling down in two steps, the second by more than 2^53, equals scaling once although the intermediate subnormal may be inexact. |
| Scaling.ScaleSaturates | moonloader/lib/libtcc/include/tcc/tcc_libm.h:223-229 | Clamping n is harmless: all factors beyond the range of the format give the same result in each direction. |
| Scaling.MulByPower | moonloader/lib/libtcc/include/tcc/tcc_libm.h:232-233 | Multiplying by the number 2^k, as values of the format, scales by k with one rounding. |
| Scaling.PowerOfTwo | moonloader/lib/libtcc/include/tcc/tcc_libm.h:232 | Shifting 0x3ff + k into the exponent field makes the double 2^k, for -1022 <= k <= 1023. |
| Scaling.TimesScaleDown | moonloader/lib/libtcc/include/tcc/tcc_libm.h:226 | The constant 0x1p-1022 * 0x1p53 is exact, and multiplying by it scales by -969. |
| Scaling.Frexp | moonloader/lib/libtcc/include/tcc/tcc_libm.h:238-251 | Zero, infinities and NaN come back unchanged (e is 0, or left alone); any other double is split into a fraction in [1/2, 1) of its sign and an exponent with x == m * 2^e exactly; nonzero subnormals, and no other numbers, take one recursive call. |
| Scaling.FrexpMasks | moonloader/lib/libtcc/include/tcc/tcc_libm.h:248-249 | The two masks keep sign and fraction of the word and put 0x3fe into the exponent field. |
| Scaling.SubnormalScales | moonloader/lib/libtcc/include/tcc/tcc_libm.h:242 | Multiplying a subnormal by 2^64 is exact and gives a normal number, and splitting that splits the original with 64 less. |
| Scaling.SplitUnique | moonloader/lib/libtcc/include/tcc/tcc_libm.h:238-251 | A finite nonzero number has only one fraction in [1/2, 1) and exponent. |
| Scaling.SplitScalesBack | moonloader/lib/libtcc/include/tcc/tcc_libm.h:217-251 | Scaling the fraction by the exponent restores the number exactly in every direction. |
| Scaling.FrexpThenScalbn | moonloader/lib/libtcc/include/tcc/tcc_libm.h:217-251 | frexp then scalbn is the identity on the bits of every finite double, under any two directions. |
| Scaling.ScaleThenSplit | moonloader/lib/libtcc/include/tcc/tcc_libm.h:217-251 | For a fraction m and any e, splitting m * 2^e gives (m, e) back if and only if e is not past the top exponent and the digits below the last place are zero. |
| Scaling.NormalScalingSplitsBack | moonloader/lib/libtcc/include/tcc/tcc_libm.h:217-251 | That condition always holds while the result is a normal number. |
| Scaling.ScalbnThenFrexp | moonloader/lib/libtcc/include/tcc/tcc_libm.h:217-251 | For every m in [1/2, 1), every e and any two directions, scalbn then frexp returns the same fraction and exponent if and only if m * 2^e neither overflows nor loses a digit, as always for -1021 <= e <= 1024. |
| Scaling.ScaleInWider | moonloader/lib/libtcc/include/tcc/tcc_libm.h:277-301 | Scaling a number in a sufficiently wider format and narrowing the result equals scaling it once in its own format: double rounding does no harm, overflow included. |
| Scaling.Scalbnf | moonloader/lib/libtcc/include/tcc/tcc_libm.h:277-301 | scalbnf and ldexpf, which compute in double, return x * 2^n rounded once to float as the standard says, overflow included, for every float, n and direction. |
| Scaling.SplitInWider | moonloader/lib/libtcc/include/tcc/tcc_libm.h:306-308 | The fraction that the wider format finds for a number of the narrower one converts to the fraction of that number, with the same exponent. |
| Scaling.Frexpf | moonloader/lib/libtcc/include/tcc/tcc_libm.h:306-308 | frexpf, which splits the double of the same value, gives a float in [1/2, 1) of the sign of x and an exponent with x == m * 2^e exactly, for subnormal floats too; zero, infinities and NaN come back. |
| Scaling.FrexpfThenLdexpf | moonloader/lib/libtcc/include/tcc/tcc_libm.h:277-308 | frexpf then ldexpf is the identity on the bits of every finite float, under any two directions. |
| Rounding.HalfAwayIsNearest | moonloader/lib/libtcc/include/math.h:392-396 | The reference for round: HalfAway is the one integer that is nearest with ties away from zero, and at most 1/2 away. |
| Rounding.Round | moonloader/lib/libtcc/include/tcc/tcc_libm.h:131-148 | For every double and in all four directions, round returns the nearest integer, ties away from zero, with the sign of x kept; NaN and infinities come back. |
| Rounding.CorrectionIsExact | moonloader/lib/libtcc/include/tcc/tcc_libm.h:145 | For 1/2 <= x < 2^52 the computed x + 2^52 - 2^52 - x is exactly i - x, i being one of the two integers around x, and x itself if x is an integer. |
| Rounding.CorrectionDecides | moonloader/lib/libtcc/include/tcc/tcc_libm.h:146 | Comparing that difference with 1/2 and -1/2 turns either neighbour into the nearest integer, ties upward. |
| Rounding.CorrectedIsHalfAway | moonloader/lib/libtcc/include/tcc/tcc_libm.h:146 | The three sums of the branchless correction are exact and give the nearest integer whatever the direction did before. |
| Rounding.RoundPositive | moonloader/lib/libtcc/include/tcc/tcc_libm.h:145-146 | The arithmetic of round on stored doubles gives the nearest integer for 1/2 <= x < 2^52. |
| Rounding.RoundToZero | moonloader/lib/libtcc/include/tcc/tcc_libm.h:140-144 | Below 1/2, 0 * x is the zero with the sign of x, which is the nearest integer. |
| Rounding.RoundAwayIsNum | moonloader/lib/libtcc/include/tcc/tcc_libm.h:136-137 | The nearest integer to a number of the format is a number of the format, and from 2^52 on it is the number itself. |
| Rounding.RoundAwayIsNearest | moonloader/lib/libtcc/include/tcc/tcc_libm.h:131-148 | The reference for round: the number whose magnitude is the one nearest integer, with the sign of x; NaN and infinities come back. |
| Rounding.RoundAwayMono | moonloader/lib/libtcc/include/tcc/tcc_libm.h:131-148 | round is monotone. |
| Rounding.RoundAwayProperties | moonloader/lib/libtcc/include/tcc/tcc_libm.h:131-148 | round is idempotent, odd, and moves a number by at most 1/2. |
| Rounding.RoundInWider | moonloader/lib/libtcc/include/tcc/tcc_libm.h:158-160 | Rounding in the wider format and narrowing loses nothing. |
| Rounding.Roundf | moonloader/lib/libtcc/include/tcc/tcc_libm.h:158-160 | roundf returns the nearest integer to a float, ties away from zero, in every direction. |
| Rounding.RoundToInteger | moonloader/lib/libtcc/include/tcc/tcc_libm.h:150-156 | lround (width 32) and llround (width 64) return the nearest integer whenever the type can hold it, and have no defined result otherwise. |
| Rounding.NearestIntegerIsRounded | moonloader/lib/libtcc/include/tcc/tcc_libm.h:150-156 | The integer that lround returns is the number that round returns. |
| Rounding.RoundFloatToInteger | moonloader/lib/libtcc/include/tcc/tcc_libm.h:162-168 | lroundf and llroundf return the nearest integer of the float, although they round a double. |
| Classify.FpclassifyIsClass | moonloader/lib/libtcc/include/tcc/tcc_libm.h:49-79 | The shift-and-mask tests find the class of the value in both formats, and signbit is the sign of every number. |
| Classify.Codes | moonloader/lib/libtcc/include/math.h:224-228 | The composed class codes, and which of them share a bit with FP_NAN. |
| Classify.FpclassifyCodes | moonloader/lib/libtcc/include/tcc/tcc_libm.h:49-63 | The code returned, in numbers, for NaN, infinities, zeros, subnormal and normal numbers of both formats. |
| Classify.PredicatesMean | moonloader/lib/libtcc/include/math.h:252-263 | isnan, isinf, isfinite and isnormal hold of exactly the words with such values, and isfinite excludes exactly the other two. |
| Classify.WideningKeepsClass | moonloader/lib/libtcc/include/math.h:232-237 | Converting a float to double keeps its class, except that every subnormal becomes normal. |
| Classify.FminIsMinNum | moonloader/lib/libtcc/include/tcc/tcc_libm.h:89-121 | fmin and fmax return the lesser and greater of two words in the total order with -0 below +0, and the other argument if one is NaN. |
| Classify.RankOrder | moonloader/lib/libtcc/include/tcc/tcc_libm.h:89-121 | That order is `<`, with -0 below +0 in addition. |
| Classify.EvalIsExtreme | moonloader/lib/libtcc/include/tcc/tcc_libm.h:89-121 | Any nesting of fmin (fmax) calls returns the least (greatest) number among its arguments, or NaN if all are NaN. |
| Classify.EvalDependsOnArguments | moonloader/lib/libtcc/include/tcc/tcc_libm.h:89-121 | The result depends only on the set of numbers among the arguments: commutative, associative, idempotent, with NaN as identity. |
| Classify.FmaxIsDual | moonloader/lib/libtcc/include/tcc/tcc_libm.h:106-109 | On words, fmax(x, y) == -fmin(-x, -y). |
| Classify.DifferenceNotZero | moonloader/lib/libtcc/include/tcc/tcc_libm.h:553 | Gradual underflow: the rounded difference of x > y is positive in every direction, and not NaN. |
| Classify.FdimMeaning | moonloader/lib/libtcc/include/tcc/tcc_libm.h:551-558 | fdim and fdimf are NaN exactly if an argument is; otherwise never negative, +0 exactly when x <= y, and else the exact difference rounded by direction as the standard says, or +infinity. |
| DoubleRounding.DirectedTwice | moonloader/lib/libtcc/include/tcc/tcc_libm.h:557 | Rounding any exact number to more bits first never changes a directed rounding. |
| DoubleRounding.SumShape | moonloader/lib/libtcc/include/tcc/tcc_libm.h:557 | If the exact sum or difference of two p-bit numbers does not fit 2p + 3 bits, the smaller one is at most an eighth of the last digit of the larger. |
| DoubleRounding.SumInWider | moonloader/lib/libtcc/include/tcc/tcc_libm.h:557 | Adding two floats in double and converting the sum gives the sum rounded once to float, in every direction: no double rounding error. |
| Classify.FdimUnique | moonloader/lib/libtcc/include/tcc/tcc_libm.h:551-558 | What the contract of fdim and fdimf says determines the result. |
| Classify.FdimfInDouble | moonloader/lib/libtcc/include/tcc/tcc_libm.h:555-558 | fdimf, its difference computed in double, returns what the contract of fdim asks for float: the exact difference rounded once to float, by direction, and so the same float as float arithmetic. |
| Gamma.ReflectionLeaves | moonloader/lib/libtcc/include/tcc/tcc_libm.h:577-578 | If x < 0.5 then the rounded 1.0 - x is not below 0.5, in every direction. |
| Gamma.RankDecreases | moonloader/lib/libtcc/include/tcc/tcc_libm.h:570-603 | Every call that tgamma or lgamma makes of the other or itself has a smaller rank, NaN and infinities included. |
| Gamma.CallCount | moonloader/lib/libtcc/include/tcc/tcc_libm.h:570-603 | The mutual recursion ends within four calls for every double. |
| Gamma.FourCalls | moonloader/lib/libtcc/include/tcc/tcc_libm.h:570-603 | Four is reached, by lgamma(-20.5). |
| Gamma.DoubleCalls | moonloader/lib/libtcc/include/tcc/tcc_libm.h:570-603 | Of a double, tgamma makes at most three and lgamma at most four calls, themselves included. |
| Gamma.MultiplyUp | moonloader/lib/libtcc/include/tcc/tcc_libm.h:575 | The loop over doubles multiplies 1.0 by 2.0, 3.0, ... up to x - 1, each product rounded. |
| Gamma.RunningExact | moonloader/lib/libtcc/include/tcc/tcc_libm.h:575 | Up to 22! these products are the exact factorials in every direction. |
| Gamma.Factorial24 | moonloader/lib/libtcc/include/tcc/tcc_libm.h:575 | The product for 24! is the correctly rounded factorial if and only if positive numbers are not truncated. |
| Gamma.FactorialsCorrect | moonloader/lib/libtcc/include/tcc/tcc_libm.h:572-576 | For integers 1 <= x <= 25, what tgamma multiplies up is (x - 1)! rounded once if and only if x < 25 or the direction is to nearest or upward; up to 23 it is exact. |
| Gamma.ExactValues | moonloader/lib/libtcc/include/tcc/tcc_libm.h:572-594 | tgamma is +infinity at both zeros, NaN at negative integers, (n - 1)! at 1, ..., 23, and at 1, ..., 25 the factorial rounded once if and only if n < 25 or the direction is to nearest or upward; lgamma is +infinity at zero and negative integers; whatever the C library functions return; the sign at zero is the argument's if and only if that is +0. |
| Gamma.TgammaIsFactorial | moonloader/lib/libtcc/include/tcc/tcc_libm.h:572-576 | tgamma(n), 1 <= n <= 25, is what the standard makes of the exact (n - 1)! in that direction, if and only if n < 25 or the direction is to nearest or upward. |
| Gamma.DoubleExactValues | moonloader/lib/libtcc/include/tcc/tcc_libm.h:572-594 | All this of every double that is an integer. |
| Gamma.StirlingLosesInfinity | moonloader/lib/libtcc/include/tcc/tcc_libm.h:592-602 | For a number not below 12, if log is +infinity at +infinity and finite at finite numbers, lgamma returns NaN if and only if the number is +infinity; tgamma(+infinity) is exp of that NaN. |
| Gamma.TgammaFromHalf | moonloader/lib/libtcc/include/tcc/tcc_libm.h:577-588 | From 1/2 up, other than integers below 26: the Lanczos sum up to 12, and exp of Stirling's formula beyond. |
| Gamma.TgammaReflects | moonloader/lib/libtcc/include/tcc/tcc_libm.h:577-578 | Below 1/2, other than at integers: pi / (sin(pi * x) * tgamma(y)), y being the exact 1 - x, rounded, and at least 1/2. |
| Gamma.GammaOfSpecials | moonloader/lib/libtcc/include/tcc/tcc_libm.h:570-603 | What both return at NaN and the infinities. |
| Gamma.LgammaFromTwelve | moonloader/lib/libtcc/include/tcc/tcc_libm.h:598-602 | From 12 up lgamma is Stirling's formula. |
| Gamma.LgammaIsLogOfMagnitude | moonloader/lib/libtcc/include/tcc/tcc_libm.h:593-597 | Below 12 and not at a pole, lgamma(x) is log of -tgamma(x) if that is below zero and of tgamma(x) otherwise; the argument of log is never below zero and has the magnitude of tgamma(x). |
| Gamma.StirlingIsExact | moonloader/lib/libtcc/include/tcc/tcc_libm.h:602 | Where nothing is rounded, Stirling's last line is (x - 1/2) * log(x) - x + c + m / x. |
| Gamma.WithoutRecursion | moonloader/lib/libtcc/include/tcc/tcc_libm.h:570-603 | The mutual recursion amounts to at most one reflection, followed by one use of the multiplied factorial, Stirling's formula or the Lanczos sum. |
| Gamma.ComputeTgamma | moonloader/lib/libtcc/include/tcc/tcc_libm.h:570-589 | tgamma, loop and recursion included, returns what the lemmas above are about, and makes exactly the counted calls. |
| Gamma.ComputeLgamma | moonloader/lib/libtcc/include/tcc/tcc_libm.h:592-603 | lgamma likewise. |
| VarArgs.AlignMaskRoundsUp | moonloader/lib/libtcc/include/tccdefs.h:212-213 | The masks of _tcc_align and of the slot rounding round up to a multiple of a power of two, as long as the sum is an address. |
| VarArgs.RoundUpIsLeast | moonloader/lib/libtcc/include/tccdefs.h:212-213 | That multiple is the least one not below the address. |
| VarArgs.Win64ByReference | moonloader/lib/libtcc/include/tccdefs.h:205 | On Win64 an argument is fetched through a pointer exactly when its nonzero size is not 1, 2, 4 or 8. |
| VarArgs.SlotsAreLeast | moonloader/lib/libtcc/include/tccdefs.h:205-241 | From a slot boundary, each slot starts at the least address that the type allows, holds the value or pointer, and ends on a slot boundary. |
| VarArgs.MultipleMeans | moonloader/lib/libtcc/include/tccdefs.h:212-213 | A multiple of a power of two is a number divisible by it. |
| VarArgs.SlotNumbers | moonloader/lib/libtcc/include/tccdefs.h:205-241 | Slots in numbers: 8 bytes at the pointer on Win64, the size rounded to 4 at the pointer on i386, and on ARM and RISC-V from the aligned address, or one register for a reference. |
| VarArgs.ArgumentFits | moonloader/lib/libtcc/include/tccdefs.h:215-236 | On ARM and RISC-V, stepping back from the new pointer by the rounded size finds exactly the aligned address. |
| VarArgs.VaList.constructor | moonloader/lib/libtcc/include/tccdefs.h:214-240 | va_start on ARM and i386 points (sizeof + 3) / 4 * 4 bytes behind the start of the last named argument. |
| VarArgs.VaList.ArgWin64 | moonloader/lib/libtcc/include/tccdefs.h:205-206 | One va_arg on Win64 moves by 8 and reads the bytes at the old pointer, or behind the 8-byte pointer there if the size is not 0, 1, 2, 4 or 8. |
| VarArgs.VaList.ArgI386 | moonloader/lib/libtcc/include/tccdefs.h:241 | One va_arg on i386 reads at the old pointer and moves by (sizeof + 3) / 4 * 4. |
| VarArgs.VaList.ArgAligned | moonloader/lib/libtcc/include/tccdefs.h:215-216 | One va_arg on ARM reads at the aligned address and moves behind it by the size rounded to the register. |
| VarArgs.VaList.ArgRiscV | moonloader/lib/libtcc/include/tccdefs.h:236 | One va_arg on RISC-V: for more than 8 (16) bytes through the 4 (8) byte pointer at the old list pointer, which moves by 4 (8); otherwise at the aligned address. |
| VarArgs.VaList.Arg | moonloader/lib/libtcc/include/tccdefs.h:203-241 | On each of the platforms va_arg keeps the pointer on a slot boundary. |
| VarArgs.VaList.Walk | moonloader/lib/libtcc/include/tccdefs.h:203-241 | A walk over any list of types reads the values in order and ends behind the last slot. |
| VarArgs.WalkReturnsArguments | moonloader/lib/libtcc/include/tccdefs.h:203-241 | For every argument list stored by the slot rule, reading with the same types returns the same values, copies passed by reference included, wherever the caller keeps them apart from the slots and from each other. |
| VarArgs.VaList.ReadArguments | moonloader/lib/libtcc/include/tccdefs.h:203-241 | A walk over memory in which a caller stored a list of arguments returns that list. |
| VarArgs.PassFrame | moonloader/lib/libtcc/include/tccdefs.h:203-241 | Storing a list changes nothing but its slots and copies. |
| VarArgs.PointerIsWalked | moonloader/lib/libtcc/include/tccdefs.h:203-241 | The list pointer before the k-th argument is where a walk over the first k ends. |
| VarArgs.ValueOfWalk | moonloader/lib/libtcc/include/tccdefs.h:203-241 | The k-th value of a walk is read at the k-th pointer. |
| VarArgs.Win64Offsets | moonloader/lib/libtcc/include/tccdefs.h:205-206 | On Win64 the k-th argument is at the start plus 8 * k, whatever the types are. |
| VarArgs.AlignedOffsets | moonloader/lib/libtcc/include/tccdefs.h:215-236 | On ARM and RISC-V, each pointer in numbers of the one before it. |
| VarArgs.SlotsAreDisjoint | moonloader/lib/libtcc/include/tccdefs.h:211-241 | Slots of different arguments are disjoint and increasing, and every pointer in between is a multiple of the slot size. |
| VarArgs.I386Offsets | moonloader/lib/libtcc/include/tccdefs.h:240-241 | On i386 the k-th argument is read at the start plus the sum of the sizes before it, each rounded to 4. |
| Malloca.StepIsSafe | moonloader/lib/libtcc/include/malloc.h:116-149 | Every legal _malloca, write, _freea, call and return keeps blocks apart, markers of live blocks intact, each heap block reachable through a live pointer, and the account of heap blocks balanced. |
| Malloca.FreeaFreesHeapBlocks | moonloader/lib/libtcc/include/malloc.h:135-149 | _freea of a live pointer calls free exactly if the block is on the heap, with its base, and never finds a foreign marker. |
| Malloca.StepFreesOnlyHeap | moonloader/lib/libtcc/include/malloc.h:140-141 | A step gives free at most one address, the base of a block then on the heap, which is gone afterwards: never stack memory, never a block twice. |
| Malloca.RunsAreSafe | moonloader/lib/libtcc/include/malloc.h:105-149 | All this over every legal run from the start, with every heap block ever obtained either released exactly once or still live. |
| Malloca.RunsPlaceBySize | moonloader/lib/libtcc/include/malloc.h:126-129 | Over every run, blocks of at most 1024 bytes, marker included, are on the stack and larger ones on the heap. |
| Malloca.CallRestoresStack | moonloader/lib/libtcc/include/malloc.h:126-129 | A whole call, with any legal run in it: after the return, the stack blocks are exactly those from before it. |
| Malloca.FreeingAllLeavesNone | moonloader/lib/libtcc/include/malloc.h:135-149 | From any valid state, giving every live pointer back once, in any order, is legal and leaves no heap block. |
| Malloca.TotalSizeIsSum | moonloader/lib/libtcc/include/malloc.h:126-129 | What is asked for is (size + 8) mod 2^32, or (size + 16) mod 2^64 bytes. |
| Malloca.MallocaInNumbers | moonloader/lib/libtcc/include/malloc.h:126-129 | Up to 1024 bytes in all go to the current stack frame with marker 0xCCCC, more to the heap with 0xDDDD; nothing but the marker is written, and only malloc'd blocks join the account. |
| Malloca.ValidExactlyWithoutWrap | moonloader/lib/libtcc/include/malloc.h:126-129 | _malloca of any size keeps the state valid if and only if it fails or the block has room for marker and data, which is if the sum does not wrap. |
| Malloca.WrappedRequestHarms | moonloader/lib/libtcc/include/malloc.h:126-129 | After a sum that wrapped, a write among the first size bytes of the returned pointer can change the marker of any other live block, except one that lies wholly in the room that the new marker lacks. |
| Malloca.Process.MarkAllocaS | moonloader/lib/libtcc/include/malloc.h:116-122 | NULL passes through; otherwise the marker is stored at the base and the address behind it returned. |
| Malloca.Process.MallocA | moonloader/lib/libtcc/include/malloc.h:126-129 | For every size_t, _malloca is the step of the machine: block, place, marker 0xCCCC or 0xDDDD and account as the threshold 1024 says; it keeps the state valid if and only if it fails or the sum does not wrap; without wrapping it returns NULL or a live pointer. |
| Malloca.Process.FreeA | moonloader/lib/libtcc/include/malloc.h:135-149 | _freea is the step of the machine: of a heap block, marked 0xDDDD, it frees the base, and of a stack block, marked 0xCCCC, nothing; it meets the contract of free, and the corruption check does not fire. |
| Malloca.Process.Put | moonloader/lib/libtcc/include/malloc.h:105-149 | A client's write inside a live block keeps the state valid. |
| Malloca.Process.LeaveFrame | moonloader/lib/libtcc/include/malloc.h:128 | Returning from a function drops exactly the stack blocks obtained in its frame and the pointers into them, and keeps the state valid. |

## Left out

- NaN payloads and signs, floating-point exception flags, and `TCCFP_FORCE_EVAL`: all NaNs are one value.
- Excess range and precision of x87 registers: every stored result is taken to be binary64 or binary32.
- The Lanczos sum, Stirling's series `m / x`, the reflection quotient and `log`, `exp`, `sin`, `pow` in `tgamma` and `lgamma`: parameters of the model (`Gamma.Libm`), because they rest on `log`, `exp`, `sin` and `pow` of msvcrt.
- Gamma.ComputeTgamma: says nothing about the accuracy of the Lanczos sum and of the reflection, which are parameters.
- Gamma.ComputeLgamma: says nothing about the accuracy of Stirling's series and of `log`, which are parameters.
- `asinh`, `acosh`, `atanh`, `log1p`, `expm1`, `exp2`, `log2`, `cbrt`: their accuracy rests on the same functions.
- `rint`, `lrint`, `llrint`, `trunc`: x87 instructions in inline assembly.
- `fabs` and `truncf`: not claimed to meet C99, since `x < 0 ? -x : x` keeps the sign of -0.0 and `truncf` goes through `intptr_t`.
- The `long double` variants: they forward to the `double` functions.
- `nexttoward`, `ilogb` and the float wrappers of msvcrt functions: thin forwarding.
- `frexp`'s exponent pointer is an in- and out-parameter: aliasing between `e` and other memory is not modelled.
- `__builtin_va_arg` of x86_64 outside Windows and of AArch64: an external function, and type declarations only.
- Address arithmetic that wraps around the end of the address space in `va_arg`: `Fits` excludes it.
- Reuse of frames by `longjmp`, and `realloc` of a `_malloca` block: not part of the protocol.
- All other headers: declarations, constants and packing macros.
