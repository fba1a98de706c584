# Verified core of the cloud portal

A model in Dafny of the hard algorithms of the repository and proofs of what they compute. Most of them live in the
compiled asset of the in-browser SPICE desktop viewer; two are a configuration editor and the life of a virtual machine
in the portal. `dafny verify dfyconfig.toml` checks everything.

| files | what they model |
|---|---|
| `JsInt` | the integer operators of JavaScript, with their conversions to 32 bits |
| `Digits`, `Kernels`, `DigitLemmas`, `Division`, `BigInteger` | multi-precision integers: digit arrays in base 2^26, 2^28 or 2^30, updated in place; products, squares, shifts, schoolbook division |
| `Doubles`, `Estimates`, `Rounds` | rounding to 53 bits, the quotient digit that a division estimates in doubles, and when that estimate is good enough |
| `Congruence`, `ModPow` | Newton inverse, Montgomery and classic reduction, square and multiply, `modPowInt` |
| `RadixText` | numbers as text in bases 2, 4, 8, 16 and 32 and back, and bytes as numbers |
| `Spice` | the SPICE wire reader, its messages and the channel state machine |
| `QuicBits`, `QuicGolomb`, `QuicModel`, `QuicRow`, `QuicReference`, `QuicDecoder` | the QUIC image codec: bit window, limited Golomb code, adaptive model, first row |
| `Lz` | the LZ image decoder |
| `Oaep`, `Rsa` | encryption of the ticket: OAEP padding over an arbitrary hash, then the modular power and its bytes |
| `Lru` | the cache of `$cacheFactory` |
| `ConfigIni` | deletion and addition of sections in `config.ini` |
| `VmLifecycle` | instance methods and queue workers against an arbitrary cloud |

The digit width is one unknown constant out of three, so claims about numbers are claims about all engines. Only the
quotient estimate of a division rounds in double precision; that rounding is part of the model, and what depends on it
says so: with 28 or 30 bits it never does harm, with 26 bits it can. Code that
updates objects or arrays is modelled by classes and methods with loops, each proved against a specification function or
an equation on the numbers, bits or lists it stands for; the main theorems are about those.

What the proofs brought to light:

- With 26-bit digits `bnpDivRemTo` can divide wrongly: rounding can take the estimate one below the true digit, which the
  correction loop, made for estimates that are too large, does not notice. 166605819569912260284374 divided by
  2482631308465244 leaves a wrong remainder, which `modPowInt` returns for exponent 1. With 28 and 30 bits the
  formula has room for the rounding errors, and so it has for divisors of one digit.
- `bnCompareTo` orders two negative numbers of different lengths the wrong way round; all other pairs are right.
- `montConvert` hands `divRemTo` a zero with leading zero digits when x is 0. The division still works: its negative
  shift drops a digit, and the stray one is shifted out again.
- The 32-bit size field of a message is read as a signed number, so sizes from 2^31 on never yield a positive request.
- Putting an undefined value into the cache makes an entry that its size does not count; taking that entry away then
  makes the size too small, and the cache can exceed its capacity.
- Deleting a host right after appending it does not give back a file whose last line had no newline: the two run together.
- A padding for a key of fewer than 21 bytes throws before the length check that would return null.
- `rsa_encrypt` drops leading zero bytes of the power, so its result is shorter than the key whenever the power is below
  256^(k-1); the number, and so the message, is still the right one.
- `VMDestroy` compares the job status with numbers while `isCreated` treats it as text; given text, it neither marks the
  machine destroyed nor polls again.
- `update_model_8bpc` keeps its bounds also when the trigger changes between updates, as it does at every phase.

## Model

| member | source | states |
|---|---|---|
| `Kernels.Am1Fits` | bkclient-portal/public/assets/application-2e6b974c32b82640118d273c058b337e.js:1 | `am1`, 26 bits: product and sum stay below 2^53, for every x < 2 * DV |
| `Kernels.Am2Fits` | bkclient-portal/public/assets/application-2e6b974c32b82640118d273c058b337e.js:1 | `am2`, 30 bits: middle product and low sum stay below 2^32 |
| `Kernels.Am3Fits` | bkclient-portal/public/assets/application-2e6b974c32b82640118d273c058b337e.js:1 | `am3`, 28 bits: middle product and low sum stay below 2^31 |
| `Kernels.Am1Digit` | bkclient-portal/public/assets/application-2e6b974c32b82640118d273c058b337e.js:1 | one digit of `am1`: digit + carry * DV = x * a + b + c with the carry at most x, for every x < 2 * DV |
| `Kernels.Am2Digit` | bkclient-portal/public/assets/application-2e6b974c32b82640118d273c058b337e.js:1 | the same for `am2`, from 15-bit halves |
| `Kernels.Am3Digit` | bkclient-portal/public/assets/application-2e6b974c32b82640118d273c058b337e.js:1 | the same for `am3`, from 14-bit halves |
| `Kernels.CarryBound` | bkclient-portal/public/assets/application-2e6b974c32b82640118d273c058b337e.js:1 | a carry never exceeds the multiplier, so it is a legal carry into the next digit |
| `BigIntegers.BigInteger.Am1` | bkclient-portal/public/assets/application-2e6b974c32b82640118d273c058b337e.js:1 | `am1` as a loop: new w + carry * DV^n = old w + x * this[i..i+n) + c, nothing else written |
| `BigIntegers.BigInteger.Am2` | bkclient-portal/public/assets/application-2e6b974c32b82640118d273c058b337e.js:1 | `am2`: the same contract |
| `BigIntegers.BigInteger.Am3` | bkclient-portal/public/assets/application-2e6b974c32b82640118d273c058b337e.js:1 | `am3`: the same contract |
| `BigIntegers.BigInteger.Am` | bkclient-portal/public/assets/application-2e6b974c32b82640118d273c058b337e.js:8 | whichever kernel the engine selects, the same contract |
| `BigIntegers.BigInteger.CopyTo` | bkclient-portal/public/assets/application-2e6b974c32b82640118d273c058b337e.js:1 | `bnpCopyTo`: value, length and sign are copied, also onto itself |
| `BigIntegers.BigInteger.FromInt` | bkclient-portal/public/assets/application-2e6b974c32b82640118d273c058b337e.js:1 | `bnpFromInt`: the number for every integer within one digit |
| `BigIntegers.BigInteger.Clamp` | bkclient-portal/public/assets/application-2e6b974c32b82640118d273c058b337e.js:1 | `bnpClamp`: the value stays and no leading digit repeats the sign |
| `BigIntegers.BigInteger.CompareTo` | bkclient-portal/public/assets/application-2e6b974c32b82640118d273c058b337e.js:1 | `bnCompareTo`: the sign of the difference, and exactly where it is wrong: two negative numbers of different lengths come out in the opposite order |
| `BigIntegers.BigInteger.NegativesOutOfOrder` | bkclient-portal/public/assets/application-2e6b974c32b82640118d273c058b337e.js:1 | such a pair: -1, without digits, is reported as smaller than -2, with one |
| `BigIntegers.BigInteger.SubTo` | bkclient-portal/public/assets/application-2e6b974c32b82640118d273c058b337e.js:1 | `bnpSubTo`: the exact difference for all signs and lengths, also in place |
| `BigIntegers.BigInteger.Negate` | bkclient-portal/public/assets/application-2e6b974c32b82640118d273c058b337e.js:1 | `bnNegate`: the value with the other sign, in a new number |
| `BigIntegers.BigInteger.Abs` | bkclient-portal/public/assets/application-2e6b974c32b82640118d273c058b337e.js:1 | `bnAbs`: the absolute value, the number itself when it is not negative |
| `BigIntegers.BigInteger.SignIsSign` | bkclient-portal/public/assets/application-2e6b974c32b82640118d273c058b337e.js:1 | the sign word of a clamped number is the sign of its value |
| `BigIntegers.BigInteger.DLShiftTo` | bkclient-portal/public/assets/application-2e6b974c32b82640118d273c058b337e.js:1 | `bnpDLShiftTo`: times DV^n, also in place; a negative n drops digits |
| `BigIntegers.BigInteger.DRShiftTo` | bkclient-portal/public/assets/application-2e6b974c32b82640118d273c058b337e.js:1 | `bnpDRShiftTo`: the digits from n on |
| `BigIntegers.BigInteger.LShiftTo` | bkclient-portal/public/assets/application-2e6b974c32b82640118d273c058b337e.js:1 | `bnpLShiftTo`: exactly times 2^sh, negative numbers included |
| `BigIntegers.BigInteger.RShiftTo` | bkclient-portal/public/assets/application-2e6b974c32b82640118d273c058b337e.js:1 | `bnpRShiftTo`: the floor of the quotient by 2^sh, negative numbers included |
| `BigIntegers.BigInteger.MultiplyTo` | bkclient-portal/public/assets/application-2e6b974c32b82640118d273c058b337e.js:1 | `bnpMultiplyTo`: the exact product for all signs |
| `BigIntegers.BigInteger.SquareTo` | bkclient-portal/public/assets/application-2e6b974c32b82640118d273c058b337e.js:1 | `bnpSquareTo`: the exact square, hence the value that `bnpMultiplyTo` gives |
| `BigIntegers.BigInteger.SquareRow` | bkclient-portal/public/assets/application-2e6b974c32b82640118d273c058b337e.js:1 | one row of the square: the doubled digit handed to `am`, and the overflow carry repaired |
| `Division.TruncDivision` | bkclient-portal/public/assets/application-2e6b974c32b82640118d273c058b337e.js:1 | quotient and remainder with truncated signs: a = q * b + r, r smaller than b in magnitude and with the sign of a |
| `Division.NBitsSpec` | bkclient-portal/public/assets/application-2e6b974c32b82640118d273c058b337e.js:1 | `nbits`: the position of the leading one of every positive 32-bit number |
| `Rounds.EstimateFits` | bkclient-portal/public/assets/application-2e6b974c32b82640118d273c058b337e.js:1 | a round that has gone well so far: the estimate, every quotient, product and sum rounded, is at most DV, hence a legal multiplier for the kernels, and at most one below the true digit; it is not below it with 28 or 30 bits, with a divisor of one digit, or when the numerator is not just above a multiple of h |
| `Doubles.RoundingError` | bkclient-portal/public/assets/application-2e6b974c32b82640118d273c058b337e.js:1 | the number a double holds is within half a unit in the last of 53 bits |
| `Doubles.KeepsOrder` | bkclient-portal/public/assets/application-2e6b974c32b82640118d273c058b337e.js:1 | rounding to a double does not cross an integer |
| `Estimates.EstimateAtLeast` | bkclient-portal/public/assets/application-2e6b974c32b82640118d273c058b337e.js:1 | the estimate `floor(n[--m] * p + (n[m - 1] + f) * d)` of `bnpDivRemTo` in doubles is not below q if q * h is below its numerator by 3/4 DV + 2 |
| `Estimates.EstimateIsMultiplier` | bkclient-portal/public/assets/application-2e6b974c32b82640118d273c058b337e.js:1 | it does not exceed DV if the numerator does not exceed DV * h + DV |
| `Rounds.EstimateAbove` | bkclient-portal/public/assets/application-2e6b974c32b82640118d273c058b337e.js:1 | the room that the true digit leaves below the numerator: DV - 2^F1, or DV for a divisor of one digit |
| `Rounds.ReachesIs` | bkclient-portal/public/assets/application-2e6b974c32b82640118d273c058b337e.js:1 | what a round computes from the digits in its buffer is the estimate for the rest of the dividend, and reaches the true digit exactly when `Reaches`, on numbers alone, says so |
| `Rounds.SafeReaches` | bkclient-portal/public/assets/application-2e6b974c32b82640118d273c058b337e.js:1 | with 26 bits too a round reaches its digit when the numerator leaves a remainder of 3/4 DV + 2 modulo h |
| `Rounds.AlwaysSound` | bkclient-portal/public/assets/application-2e6b974c32b82640118d273c058b337e.js:1 | with 28 or 30 bits, or a divisor of one digit, every estimate of every division reaches its digit |
| `Rounds.LowIsUnsound` | bkclient-portal/public/assets/application-2e6b974c32b82640118d273c058b337e.js:1 | with 26 bits not: 166605819569912260284374 / 2482631308465244 takes one round, whose estimate 67108563.00000000033 comes out as 67108562.99999999 |
| `Rounds.FellIsWrong` | bkclient-portal/public/assets/application-2e6b974c32b82640118d273c058b337e.js:1 | a round whose estimate is one too low leaves a wrong rest |
| `BigIntegers.BigInteger.DivideDigit` | bkclient-portal/public/assets/application-2e6b974c32b82640118d273c058b337e.js:1 | one quotient digit, for any estimate from one below the true digit up to DV: the loop ends with the true digit and the true rest if and only if the estimate is not below the true digit; whatever the round is given, the digits below it stay proper |
| `BigIntegers.BigInteger.DivideDigits` | bkclient-portal/public/assets/application-2e6b974c32b82640118d273c058b337e.js:1 | the loop over the quotient digits: remainder and quotient share the buffer, both right if every estimate reaches its digit; if only the last one does not, the remainder is wrong |
| `BigIntegers.BigInteger.QuotientRead` | bkclient-portal/public/assets/application-2e6b974c32b82640118d273c058b337e.js:1 | the quotient is read back from the top digits of that buffer |
| `BigIntegers.BigInteger.DivRemTo` | bkclient-portal/public/assets/application-2e6b974c32b82640118d273c058b337e.js:1 | `bnpDivRemTo`: truncated quotient and remainder for all signs, either result missing, r being this or a, q being a (q is never this or r), if every estimate reaches its digit, as it always does with 28 or 30 bits; r is a number of the length of the divisor in any case, and if all estimates but the last reach theirs, r is right exactly when that one does; a zero divisor changes nothing |
| `ModPow.InverseOf` | bkclient-portal/public/assets/application-2e6b974c32b82640118d273c058b337e.js:1 | the five Newton lines of `bnpInvDigit` give the inverse of every odd digit modulo DV |
| `ModPow.InvDigit` | bkclient-portal/public/assets/application-2e6b974c32b82640118d273c058b337e.js:1 | `bnpInvDigit`: -1 / m modulo DV for odd m, 0 for even m or none |
| `ModPow.NewMontgomery` | bkclient-portal/public/assets/application-2e6b974c32b82640118d273c058b337e.js:1 | `Montgomery`: a constructor that leaves all that the reduction relies on |
| `ModPow.RowMultiplier` | bkclient-portal/public/assets/application-2e6b974c32b82640118d273c058b337e.js:1 | the 15-bit split multiplication in `montReduce` gives x[i] * mp modulo DV |
| `ModPow.MontRow` | bkclient-portal/public/assets/application-2e6b974c32b82640118d273c058b337e.js:1 | one row of `montReduce`, with the carry that runs on through the digits above |
| `ModPow.MontRows` | bkclient-portal/public/assets/application-2e6b974c32b82640118d273c058b337e.js:1 | all rows: a multiple of m is added that makes the low t digits zero |
| `ModPow.MontReduce` | bkclient-portal/public/assets/application-2e6b974c32b82640118d273c058b337e.js:1 | `montReduce`: congruent to x * DV^(-t) modulo m and of the length of m for every x of twice that length, and in [0, m) for every 0 <= x < m * DV^t |
| `ModPow.Mod` | bkclient-portal/public/assets/application-2e6b974c32b82640118d273c058b337e.js:1 | `bnMod`: the remainder that is never negative, if the estimates of the division are good; for x >= 0 with all but the last good, if and only if that one is |
| `ModPow.Reduce` | bkclient-portal/public/assets/application-2e6b974c32b82640118d273c058b337e.js:1 | `cReduce` and `montReduce` behind one contract; the former needs good estimates |
| `ModPow.Convert` | bkclient-portal/public/assets/application-2e6b974c32b82640118d273c058b337e.js:1 | `cConvert` and `montConvert`: the reduced stand-in of any number, negative ones and zero included, if the estimates of the one division are good |
| `ModPow.Revert` | bkclient-portal/public/assets/application-2e6b974c32b82640118d273c058b337e.js:1 | `cRevert` and `montRevert`: back from the stand-in to v mod m, without a division |
| `ModPow.MulTo` | bkclient-portal/public/assets/application-2e6b974c32b82640118d273c058b337e.js:1 | `cMulTo` and `montMulTo`: stand-ins multiply as their numbers do; for Classic if the estimates of the one division are good |
| `ModPow.SqrTo` | bkclient-portal/public/assets/application-2e6b974c32b82640118d273c058b337e.js:1 | `cSqrTo` and `montSqrTo`: the same for squares |
| `ModPow.NextBit` | bkclient-portal/public/assets/application-2e6b974c32b82640118d273c058b337e.js:1 | one bit of the exponent in `bnpExp`: square, and multiply exactly when the bit is set |
| `ModPow.Exp` | bkclient-portal/public/assets/application-2e6b974c32b82640118d273c058b337e.js:1 | `bnpExp`: the power through either reducer, the scratch numbers swapped on zero bits, 1 for exponents outside 1..2^32-1, if the estimates of the divisions it makes are good; a number that is not negative in any case, for x >= 0 |
| `ModPow.IsEven` | bkclient-portal/public/assets/application-2e6b974c32b82640118d273c058b337e.js:1 | `bnpIsEven` on numbers that are not negative |
| `ModPow.ModPowInt` | bkclient-portal/public/assets/application-2e6b974c32b82640118d273c058b337e.js:1 | `bnModPowInt`: x^e mod m for every x, every 1 <= e <= 2^32-1 and every m >= 1, by either branch, on condition of `PowerSound`: the estimates of the divisions made on the way reach their digits; for e = 1 and x >= m, when all estimates but the last do, if and only if that one does |
| `ModPow.PowerAlwaysSound` | bkclient-portal/public/assets/application-2e6b974c32b82640118d273c058b337e.js:1 | with 28 or 30 bits, and for moduli of one digit, that condition always holds |
| `ModPow.LowPower` | bkclient-portal/public/assets/application-2e6b974c32b82640118d273c058b337e.js:1 | with 26 bits it does not, already for an exponent of 1: the division of the example is one of those that only the last estimate decides, so `modPowInt` gives a wrong residue |
| `Congruence.CancelPower` | bkclient-portal/public/assets/application-2e6b974c32b82640118d273c058b337e.js:1 | a power of two can be cancelled modulo an odd number: why Montgomery numbers can be taken back |
| `RadixText.ToString` | bkclient-portal/public/assets/application-2e6b974c32b82640118d273c058b337e.js:1 | `bnToString` in base 2, 4, 8, 16 and 32: the numeral without leading zeros, for every number and every digit width |
| `RadixText.NextChar` | bkclient-portal/public/assets/application-2e6b974c32b82640118d273c058b337e.js:1 | one character of `bnToString`, also where it straddles two digits |
| `RadixText.FromString` | bkclient-portal/public/assets/application-2e6b974c32b82640118d273c058b337e.js:1 | `bnpFromString` in these bases: the number a text stands for; characters that are no digits are skipped, a minus counts when no digit is left of it |
| `RadixText.ReadMeans` | bkclient-portal/public/assets/application-2e6b974c32b82640118d273c058b337e.js:1 | that number is the one of the text's digits alone, the first counting most, negative if and only if a minus stands before the first of them |
| `RadixText.FromBytes` | bkclient-portal/public/assets/application-2e6b974c32b82640118d273c058b337e.js:1 | `bnpFromString` in base 256: the two's complement number that an array of bytes stands for |
| `RadixText.PutDigit` | bkclient-portal/public/assets/application-2e6b974c32b82640118d273c058b337e.js:1 | one character or byte of `bnpFromString` put on top of the bits so far, also across two digits |
| `RadixText.NumeralMeans` | bkclient-portal/public/assets/application-2e6b974c32b82640118d273c058b337e.js:1 | numerals evaluate to their number |
| `RadixText.NumeralChars` | bkclient-portal/public/assets/application-2e6b974c32b82640118d273c058b337e.js:1 | they have decimal digits and small letters only, and no leading zero |
| `RadixText.TextRoundTrip` | bkclient-portal/public/assets/application-2e6b974c32b82640118d273c058b337e.js:1 | reading back what was written gives every integer again |
| `Spice.Uint16RoundTrip` | bkclient-portal/public/assets/application-2e6b974c32b82640118d273c058b337e.js:7 | `SpiceDataView` 16-bit fields read back as written, modulo 2^16 |
| `Spice.Uint16Is` | bkclient-portal/public/assets/application-2e6b974c32b82640118d273c058b337e.js:7 | `getUint16` is u[k] + 256 * u[k + 1], the low byte first |
| `Spice.Uint16Bytes` | bkclient-portal/public/assets/application-2e6b974c32b82640118d273c058b337e.js:7 | `setUint16` writes the bytes x mod 256 and x / 256 mod 256 in this order |
| `Spice.Uint32Is` | bkclient-portal/public/assets/application-2e6b974c32b82640118d273c058b337e.js:7 | `getUint32` is the signed number of four bytes, the low one first |
| `Spice.Uint32Bytes` | bkclient-portal/public/assets/application-2e6b974c32b82640118d273c058b337e.js:7 | `setUint32` writes the four bytes of a number in this order |
| `Spice.MessageBytes` | bkclient-portal/public/assets/application-2e6b974c32b82640118d273c058b337e.js:7 | `SpiceMiniData.to_buffer`: type and size, low byte first, then the data |
| `Spice.Uint32RoundTrip` | bkclient-portal/public/assets/application-2e6b974c32b82640118d273c058b337e.js:7 | 32-bit fields read back as signed numbers |
| `Spice.HeaderRequest` | bkclient-portal/public/assets/application-2e6b974c32b82640118d273c058b337e.js:7 | the size field of a header yields a positive request exactly for sizes below 2^31 |
| `Spice.CombineArrayBuffers` | bkclient-portal/public/assets/application-2e6b974c32b82640118d273c058b337e.js:1 | `combine_array_buffers`: the concatenation, byte by byte |
| `Spice.SpiceConn.ProcessInbound` | bkclient-portal/public/assets/application-2e6b974c32b82640118d273c058b337e.js:7 | `SpiceConn.process_inbound`: the callback on its objects does what the state machine `Step` does, which the next four rows and `SessionRefused` state on bytes |
| `Spice.StartStep` | bkclient-portal/public/assets/application-2e6b974c32b82640118d273c058b337e.js:7 | the first frame leads on exactly if it starts with 52 45 44 51; as many bytes as its last field says are then requested |
| `Spice.HandshakeStep` | bkclient-portal/public/assets/application-2e6b974c32b82640118d273c058b337e.js:7 | link and authentication replies lead on exactly if their result word is zero |
| `Spice.HeaderStep` | bkclient-portal/public/assets/application-2e6b974c32b82640118d273c058b337e.js:7 | a header makes a message at once if its size is 0, and otherwise requests that many bytes |
| `Spice.DataStep` | bkclient-portal/public/assets/application-2e6b974c32b82640118d273c058b337e.js:7 | these bytes become the data of the message, and a header is requested |
| `Spice.SpiceWireReader.Open` | bkclient-portal/public/assets/application-2e6b974c32b82640118d273c058b337e.js:7 | the open event: the first request, on an empty reader |
| `Spice.SpiceWireReader.Inbound` | bkclient-portal/public/assets/application-2e6b974c32b82640118d273c058b337e.js:7 | `SpiceWireReader.inbound` for a piece of any length: frames and left-over bytes are those of greedy slicing, and at most one short buffer remains |
| `Spice.SpiceWireReader.Deliver` | bkclient-portal/public/assets/application-2e6b974c32b82640118d273c058b337e.js:7 | handing out one frame and keeping the excess |
| `Spice.SpiceWireReader.MergeFront` | bkclient-portal/public/assets/application-2e6b974c32b82640118d273c058b337e.js:7 | gluing buffers at the front changes no byte |
| `Spice.SpiceWireReader.Feed` | bkclient-portal/public/assets/application-2e6b974c32b82640118d273c058b337e.js:7 | any chunking of a byte stream gives the frames of the whole stream |
| `Spice.GreedyConcat` | bkclient-portal/public/assets/application-2e6b974c32b82640118d273c058b337e.js:7 | slicing in two parts is slicing the whole |
| `Spice.GreedyConserves` | bkclient-portal/public/assets/application-2e6b974c32b82640118d273c058b337e.js:7 | frames and rest spell the stream: nothing lost, doubled or reordered, and the rest is shorter than the request |
| `Spice.OneMessageExact` | bkclient-portal/public/assets/application-2e6b974c32b82640118d273c058b337e.js:7 | a message of less than 2^31 bytes survives the wire if and only if its kind fits 16 bits, its size field is the length of its data, and data that are there are not empty |
| `Spice.MessagesRoundTrip` | bkclient-portal/public/assets/application-2e6b974c32b82640118d273c058b337e.js:7 | a list of such messages written back to back comes out of the ready state as the same list |
| `Spice.SessionDelivers` | bkclient-portal/public/assets/application-2e6b974c32b82640118d273c058b337e.js:7 | the same after link header, link reply and authentication reply |
| `Spice.SessionRefused` | bkclient-portal/public/assets/application-2e6b974c32b82640118d273c058b337e.js:7 | a session whose magic, link reply or authentication reply is bad ends in the error state and hands over no message, whatever bytes follow |
| `ConfigIni.ConfigFile.DeleteNodeFromFile` | mysql-cluster-scripts/lib/config_ini.py:25-46 | `deleteNodeFromFile` on the file: the sections kept, verbatim and in order |
| `ConfigIni.DeleteSections` | mysql-cluster-scripts/lib/config_ini.py:29-43 | the outer loop: i moves backwards, the distance to the end shrinks, and the result is the reference filter |
| `ConfigIni.FindSection` | mysql-cluster-scripts/lib/config_ini.py:34-40 | the two inner loops find the section around a match; a matching header is left alone |
| `ConfigIni.CutSection` | mysql-cluster-scripts/lib/config_ini.py:33-42 | deleting what they found changes nothing in the reference, and a header or the end comes next |
| `ConfigIni.KeepIsSurvivors` | mysql-cluster-scripts/lib/config_ini.py:25-46 | a line survives if and only if no line of its own section, headers aside, matches the host |
| `ConfigIni.KeepConcat` | mysql-cluster-scripts/lib/config_ini.py:25-46 | the filter works section by section |
| `ConfigIni.KeepIsClean` | mysql-cluster-scripts/lib/config_ini.py:25-46 | no line outside the headers matches afterwards |
| `ConfigIni.KeepIdempotent` | mysql-cluster-scripts/lib/config_ini.py:25-46 | deleting again deletes nothing, on lines |
| `ConfigIni.DeleteIdempotent` | mysql-cluster-scripts/lib/config_ini.py:25-46 | the same on the text of every file, whether or not its last line is ended |
| `ConfigIni.ConfigFile.AppendNodeToFile` | mysql-cluster-scripts/lib/config_ini.py:47-54 | `appendNodeToFile`: the text of the node type at the end, nothing for an unknown type |
| `ConfigIni.NodeTextIsSections` | mysql-cluster-scripts/lib/config_ini.py:4-23 | what the three string builders write is a list of sections, line by line |
| `ConfigIni.DecimalMeans` | mysql-cluster-scripts/lib/config_ini.py:4-23 | a node id is written in decimal digits that stand for it, without a leading zero |
| `ConfigIni.SectionsMentionHost` | mysql-cluster-scripts/lib/config_ini.py:4-23 | every section they write names the host outside its header |
| `ConfigIni.DeleteUndoesAppend` | mysql-cluster-scripts/lib/config_ini.py:25-54 | deletion after appending gives the file back if and only if it is empty or ends its last line, and no line outside the headers matched before |
| `ConfigIni.LiteralHostMatches` | mysql-cluster-scripts/lib/config_ini.py:31 | a literal host name matches the line written for it |
| `QuicBits.OrOfBytes` | bkclient-portal/public/assets/application-2e6b974c32b82640118d273c058b337e.js:6 | `read_io_word`: four bytes or-ed together are a little-endian word |
| `QuicBits.EatWithinWord` | bkclient-portal/public/assets/application-2e6b974c32b82640118d273c058b337e.js:6 | `decode_eatbits` inside a word: the or repeats bits already in the window |
| `QuicBits.EatAcrossWords` | bkclient-portal/public/assets/application-2e6b974c32b82640118d273c058b337e.js:6 | `decode_eatbits` across words |
| `QuicBits.BitReader.DecodeEatbits` | bkclient-portal/public/assets/application-2e6b974c32b82640118d273c058b337e.js:6 | after n bits eaten in steps of 1..31 the word is bits n..n+31 of the stream and the available bits are the unread low bits of the next word; it fails exactly when the data end |
| `QuicBits.BitReader.DecodeEat32bits` | bkclient-portal/public/assets/application-2e6b974c32b82640118d273c058b337e.js:6 | `decode_eat32bits`: a whole word in two steps |
| `QuicBits.BitReader.ReadIoWord` | bkclient-portal/public/assets/application-2e6b974c32b82640118d273c058b337e.js:6 | `read_io_word`: the next word, or "out of data" with nothing changed |
| `QuicBits.BitReader.constructor` | bkclient-portal/public/assets/application-2e6b974c32b82640118d273c058b337e.js:6 | the start of `quic_decode_begin`: the first word is taken unchecked |
| `QuicGolomb.CeilLog2` | bkclient-portal/public/assets/application-2e6b974c32b82640118d273c058b337e.js:1 | `ceil_log_2`: the least r with t <= 2^r |
| `QuicGolomb.Family.InitCodes` | bkclient-portal/public/assets/application-2e6b974c32b82640118d273c058b337e.js:1 | the first loop of `family_init` |
| `QuicGolomb.Family.InitTranslation` | bkclient-portal/public/assets/application-2e6b974c32b82640118d273c058b337e.js:1 | the two translation tables of `family_init` |
| `QuicGolomb.Family8` | bkclient-portal/public/assets/application-2e6b974c32b82640118d273c058b337e.js:1 | the numbers it yields for the 8-bit family with codewords of at most 26 bits |
| `QuicGolomb.TranslationsInverse` | bkclient-portal/public/assets/application-2e6b974c32b82640118d273c058b337e.js:1 | xlatU2L and xlatL2U are inverses of each other |
| `QuicGolomb.LeadingZeros` | bkclient-portal/public/assets/application-2e6b974c32b82640118d273c058b337e.js:1 | `cnt_l_zeroes`: the position of the first one in every 32-bit word, 32 for zero |
| `QuicGolomb.DecodeCodeword` | bkclient-portal/public/assets/application-2e6b974c32b82640118d273c058b337e.js:1 | `golomb_decoding_8bpc` on a codeword, whatever follows: its value and its length |
| `QuicGolomb.DecodedIsCodeword` | bkclient-portal/public/assets/application-2e6b974c32b82640118d273c058b337e.js:1 | for every parameter and every window: the decoded length is `golomb_code_len_8bpc` of the decoded value, from 1 to 26, and the window starts with that codeword |
| `QuicGolomb.PrefixFree` | bkclient-portal/public/assets/application-2e6b974c32b82640118d273c058b337e.js:1 | no codeword of a code starts another one, over all 256 values |
| `QuicModel.QuicBucket.UpdateModel8bpc` | bkclient-portal/public/assets/application-2e6b974c32b82640118d273c058b337e.js:6 | `update_model_8bpc`: every counter grows by the length of the value's codeword under its parameter, all are halved exactly when the least is then above the trigger, and bestcode is the greatest index of a least one |
| `QuicModel.UpdateAdapts` | bkclient-portal/public/assets/application-2e6b974c32b82640118d273c058b337e.js:6 | the function `Updated`, which the row specification uses, is the one bucket that this allows |
| `QuicModel.CountersAreLengths` | bkclient-portal/public/assets/application-2e6b974c32b82640118d273c058b337e.js:6 | over a run in which some parameter stays cheap enough: each counter has grown by the length of all the values written with its parameter, and bestcode is the last of the shortest |
| `QuicModel.UpdateBounded` | bkclient-portal/public/assets/application-2e6b974c32b82640118d273c058b337e.js:6 | one update keeps the bounds, halving included |
| `QuicModel.ModelBounds` | bkclient-portal/public/assets/application-2e6b974c32b82640118d273c058b337e.js:6 | over every run with triggers that may change but stay at or below W >= 26: bestcode indexes a minimum, the minimum is at most W and no counter exceeds 26 * (W + 1) |
| `QuicModel.QuicFamilyStat.FillModelStructures` | bkclient-portal/public/assets/application-2e6b974c32b82640118d273c058b337e.js:6 | `fill_model_structures` for 8 bits: eight buckets, each context pointing to the one it belongs to |
| `QuicModel.CommonState.SetWmTrigger` | bkclient-portal/public/assets/application-2e6b974c32b82640118d273c058b337e.js:6 | `set_wm_trigger`: whatever the phase, the trigger is from 26, the longest codeword, to 900, which is what the bounds of the model ask of it |
| `QuicModel.DrawnDistance` | bkclient-portal/public/assets/application-2e6b974c32b82640118d273c058b337e.js:6 | `tabrand` and the mask: the distance to the next sampled pixel is below 2^bits, whatever the table |
| `QuicRow.SampleOfSymbol` | bkclient-portal/public/assets/application-2e6b974c32b82640118d273c058b337e.js:6 | the symbol for a difference and the left neighbour give the value back, modulo 256 |
| `QuicRow.DecodePixelCode` | bkclient-portal/public/assets/application-2e6b974c32b82640118d273c058b337e.js:6 | the codewords of a pixel are decoded to its symbols, or the data end too early |
| `QuicRow.RowLossless` | bkclient-portal/public/assets/application-2e6b974c32b82640118d273c058b337e.js:6 | row 0 is lossless for every row, state and stream: pixels, position and adaptive model agree with the encoder; it fails exactly when the buffer ends too early |
| `QuicRow.RowBounded` | bkclient-portal/public/assets/application-2e6b974c32b82640118d273c058b337e.js:6 | decoding any number of pixels from any data keeps every bucket of every channel within the bounds for the largest trigger, 900, although the trigger changes with the phase |
| `QuicReference.RowBitsAre` | bkclient-portal/public/assets/application-2e6b974c32b82640118d273c058b337e.js:6 | the encoding from the start state said from the symbols alone (`RowBits`): the symbol is the difference to the left neighbour from -128 to 127 in zigzag order, pixels are sampled at the distances drawn from the table in as many bits as the phase says, phases change every 2048 pixels, and a codeword's parameter is what the samples of its context's level before it lead to |
| `QuicReference.StateTracks` | bkclient-portal/public/assets/application-2e6b974c32b82640118d273c058b337e.js:6 | seed, countdown, phase and models at any pixel, in these terms |
| `QuicReference.SampledIff` | bkclient-portal/public/assets/application-2e6b974c32b82640118d273c058b337e.js:6 | the countdown is at zero exactly at the pixels of the sampling schedule |
| `QuicReference.LevelIs` | bkclient-portal/public/assets/application-2e6b974c32b82640118d273c058b337e.js:6 | the bucket of a context is the bit length of it plus one, up to 128, less one |
| `QuicReference.ZigZagIs` | bkclient-portal/public/assets/application-2e6b974c32b82640118d273c058b337e.js:6 | a symbol is the difference in zigzag order |
| `QuicReference.BlackRow` | bkclient-portal/public/assets/application-2e6b974c32b82640118d273c058b337e.js:6 | an example: a black row is FF 80 80 80 and then ones, three zeros of parameter 7 and from the second pixel on of parameter 0 |
| `QuicDecoder.FirstRowBounded` | bkclient-portal/public/assets/application-2e6b974c32b82640118d273c058b337e.js:6 | so it is for every row decoded from the state that `quic_decode_begin` leaves |
| `QuicDecoder.QuicEncoder.DecodePixel` | bkclient-portal/public/assets/application-2e6b974c32b82640118d273c058b337e.js:6 | the loop over the three channels of one pixel |
| `QuicDecoder.QuicEncoder.UpdateModels` | bkclient-portal/public/assets/application-2e6b974c32b82640118d273c058b337e.js:6 | the update loop over the three channels, through shared buckets |
| `QuicDecoder.QuicEncoder.UncompressRow0Seg` | bkclient-portal/public/assets/application-2e6b974c32b82640118d273c058b337e.js:6 | `quic_rgb32_uncompress_row0_seg`: a segment is so many steps of the pixel-by-pixel specification |
| `QuicDecoder.QuicEncoder.UncompressRow0` | bkclient-portal/public/assets/application-2e6b974c32b82640118d273c058b337e.js:6 | `quic_rgb32_uncompress_row0`: for every buffer the specification's outcome; from the start, on a buffer that begins with `RowBits` of a row, that row in the output, blue, green, red, 0 |
| `Lz.LzRgb32Decompress` | bkclient-portal/public/assets/application-2e6b974c32b82640118d273c058b337e.js:1 | `lz_rgb32_decompress` in place: the canvas gets the expansion of the tokens and the index of the first unread byte is returned; the bytes of input and canvas are related as `Parses` says |
| `Lz.ExpansionParses` | bkclient-portal/public/assets/application-2e6b974c32b82640118d273c058b337e.js:1 | the expansion of a token list is what its bytes mean (`Parses`): after a head byte h < 32 at e, pixel k of the h + 1 literals is t[e + 3k + 3], t[e + 3k + 2], t[e + 3k + 1] and 255 or the alpha it had, or t[e + k + 1] as alpha only; after any other, length and offset are read from its bits and the bytes after it, and each pixel repeats the one so far before it |
| `Lz.MatchLaw` | bkclient-portal/public/assets/application-2e6b974c32b82640118d273c058b337e.js:1 | a match gives out[k] = out[k - ofs], overlapping itself or not, and leaves earlier pixels alone |
| `Lz.CopyRun` | bkclient-portal/public/assets/application-2e6b974c32b82640118d273c058b337e.js:1 | the fast path for runs gives what the general copy gives |
| `Lz.CopyMoving` | bkclient-portal/public/assets/application-2e6b974c32b82640118d273c058b337e.js:1 | the general copy, whose source may run into its own output |
| `Lz.ReadLength` | bkclient-portal/public/assets/application-2e6b974c32b82640118d273c058b337e.js:1 | length bytes, ended by the first that is not 255 |
| `Lz.ReadOffset` | bkclient-portal/public/assets/application-2e6b974c32b82640118d273c058b337e.js:1 | offsets of 13 bits, or of 16 more when these are all ones |
| `Lz.DecodeLiteral` | bkclient-portal/public/assets/application-2e6b974c32b82640118d273c058b337e.js:1 | literal runs: the pixels of the expansion, which are in the input bytes as `Lz.LiteralsShown` says |
| `Lz.LiteralsShown` | bkclient-portal/public/assets/application-2e6b974c32b82640118d273c058b337e.js:1 | the canvas bytes of a literal run by index: blue, green, red in the input become red, green, blue, and alpha is opaque or kept; or alpha alone is read |
| `Lz.AlphaOnly` | bkclient-portal/public/assets/application-2e6b974c32b82640118d273c058b337e.js:1 | the alpha pass changes alpha bytes only |
| `Lz.ConvertRgba` | bkclient-portal/public/assets/application-2e6b974c32b82640118d273c058b337e.js:1 | `convert_spice_lz_to_web` for RGBA: a colour pass, then an alpha pass over the bytes that follow, which changes alpha only; both as `Parses` says |
| `Oaep.MGF1` | bkclient-portal/public/assets/application-2e6b974c32b82640118d273c058b337e.js:1-2 | `MGF1` fills its array with the mask of appendix B.2.1 of RFC 8017: byte i is byte i mod 20 of the digest of the seed and the four bytes, high byte first, of i / 20 |
| `Oaep.MaskIs` | bkclient-portal/public/assets/application-2e6b974c32b82640118d273c058b337e.js:1-2 | the same of the mask that the padding is specified with |
| `Oaep.PaddingAddPkcs1Oaep` | bkclient-portal/public/assets/application-2e6b974c32b82640118d273c058b337e.js:1-2 | `RSA_padding_add_PKCS1_OAEP`: the encoding of section 7.1.1 of RFC 8017, byte by byte (`IsPadding`); null exactly for messages that are too long, an exception exactly for key lengths below 21 |
| `Oaep.EncodedBytes` | bkclient-portal/public/assets/application-2e6b974c32b82640118d273c058b337e.js:1-2 | zero, the seed masked from the masked block, and the block masked from the seed: digest of the label, zeros, a one, the message, each byte at its index |
| `Oaep.DecodeEncode` | bkclient-portal/public/assets/application-2e6b974c32b82640118d273c058b337e.js:1-2 | decoding as in section 7.1.2 of RFC 8017 recovers the message for every hash, seed, label and message of at most tlen - 42 bytes; exactly the others are refused |
| `Oaep.EncodeDecode` | bkclient-portal/public/assets/application-2e6b974c32b82640118d273c058b337e.js:1-2 | whatever decodes is the padding of what it decodes to, under one seed |
| `Rsa.BitLength` | bkclient-portal/public/assets/application-2e6b974c32b82640118d273c058b337e.js:1 | `bnBitLength` of numbers that are not negative |
| `Rsa.PairedBytes` | bkclient-portal/public/assets/application-2e6b974c32b82640118d273c058b337e.js:2 | the end of `rsa_encrypt`: hexadecimal text as bytes, with the same value and without leading zero bytes |
| `Rsa.Encrypt` | bkclient-portal/public/assets/application-2e6b974c32b82640118d273c058b337e.js:2 | `rsa_encrypt`: the bytes of (padded message)^e mod n for every key, message and seed, on the condition of `modPowInt`; bytes without a leading zero in any case; null exactly for messages longer than the key length minus 42, an exception exactly for keys below 21 bytes |
| `Rsa.SealedLength` | bkclient-portal/public/assets/application-2e6b974c32b82640118d273c058b337e.js:2 | the result has the length of the key if and only if the power has no leading zero byte in that length; otherwise it is shorter, unlike section 7.1.1 of RFC 8017 |
| `Rsa.Decrypts` | bkclient-portal/public/assets/application-2e6b974c32b82640118d273c058b337e.js:1-2 | with an exponent d that undoes e, the power by d, written in k bytes and decoded as in section 7.1.2 of RFC 8017, is the message |
| `Lru.Cache.Refresh` | bkclient-portal/public/assets/application-2e6b974c32b82640118d273c058b337e.js:9 | `refresh` relinks an entry, from any place or from outside, to the fresh end; links stay inverse of each other |
| `Lru.Cache.Put` | bkclient-portal/public/assets/application-2e6b974c32b82640118d273c058b337e.js:9 | `put`: the step of the plain list, undefined values and eviction included |
| `Lru.Cache.Get` | bkclient-portal/public/assets/application-2e6b974c32b82640118d273c058b337e.js:9 | `get`: the value, and the key freshest |
| `Lru.Cache.Remove` | bkclient-portal/public/assets/application-2e6b974c32b82640118d273c058b337e.js:9 | `remove`: hash, values and links without the key |
| `Lru.Cache.RemoveAll` | bkclient-portal/public/assets/application-2e6b974c32b82640118d273c058b337e.js:9 | `removeAll` |
| `Lru.DefinedRun` | bkclient-portal/public/assets/application-2e6b974c32b82640118d273c058b337e.js:9 | with defined values only, in every run: size is the number of keys and at most the capacity |
| `Lru.SizeExact` | bkclient-portal/public/assets/application-2e6b974c32b82640118d273c058b337e.js:9 | in every run the size is right if and only if no entry without a value has been taken away since the cache was last emptied; the keys with a value are at most the capacity and the number of such losses |
| `Lru.GoesOver` | bkclient-portal/public/assets/application-2e6b974c32b82640118d273c058b337e.js:9 | when a put makes the keys with a value exceed the capacity: if and only if the key has none, the capacity is used up, and there have been losses or the entry that is evicted has no value |
| `Lru.UndefinedOverflow` | bkclient-portal/public/assets/application-2e6b974c32b82640118d273c058b337e.js:9 | a run in which an undefined value makes a cache of capacity 1 hold two keys |
| `Lru.OrderedByUse` | bkclient-portal/public/assets/application-2e6b974c32b82640118d273c058b337e.js:9 | in every run the list is ordered by the last put or get of each key |
| `Lru.EvictsLeastRecentlyUsed` | bkclient-portal/public/assets/application-2e6b974c32b82640118d273c058b337e.js:9 | a put over the capacity evicts one key, the one that has gone longest without use |
| `Lru.HoldsLastPut` | bkclient-portal/public/assets/application-2e6b974c32b82640118d273c058b337e.js:9 | in every run what is held under a key is the value last put there, with no removal since |
| `Lru.PutThenGet` | bkclient-portal/public/assets/application-2e6b974c32b82640118d273c058b337e.js:9 | right after a put the key has the value put, unless it is new and the capacity is used up without another key to give up |
| `Lru.OnlyOwnValue` | bkclient-portal/public/assets/application-2e6b974c32b82640118d273c058b337e.js:9 | the value under every key after every operation, in every run: only a put of that key with a value, its removal and its eviction change it |
| `VmLifecycle.ToBoolOfLine` | bkclient-portal/config/initializers/string_ext.rb:2-7 | `to_bool` of a line is true if and only if it is one of the five words, in any case |
| `VmLifecycle.LongIdsAreFalse` | bkclient-portal/config/initializers/string_ext.rb:2-7 | job ids of five characters or more are never taken for a finished job |
| `VmLifecycle.Instance.Deploy` | bkclient-portal/app/models/instance.rb:149-173 | `deploy` succeeds exactly when pending and the cloud answers with a job; it then leaves pending and queues one VMDeploy |
| `VmLifecycle.Instance.UpdateState` | bkclient-portal/app/models/instance.rb:176-185 | `updateState`: the request, the state the cloud reports, false when it is silent, and no request when destroyed |
| `VmLifecycle.Instance.IsCreated` | bkclient-portal/app/models/instance.rb:267-295 | `isCreated`, on every record and every sequence of replies: true if and only if the creation job is done, before or by the answer to its query, the machine was and is not reported to be going, and the listing raises nothing; an exception if and only if the answer lacks what is read from it |
| `VmLifecycle.Instance.CanStart` | bkclient-portal/app/models/instance.rb:187-190 | `canStart?`: if and only if it exists and is reported stopped |
| `VmLifecycle.Instance.CanStop` | bkclient-portal/app/models/instance.rb:214-217 | `canStop?`: if and only if it exists and is reported running |
| `VmLifecycle.Instance.CanDestroy` | bkclient-portal/app/models/instance.rb:246-249 | `canDestroy?`: if and only if it exists and is not going |
| `VmLifecycle.Instance.QueryCreation` | bkclient-portal/app/models/instance.rb:272-288 | the query in it, for every answer: true exactly on a job done with a machine, false exactly on one not done or no answer; the machine's id is written together with job_created_id "1", or neither; a job that is neither done nor "0" writes "Error" |
| `VmLifecycle.Instance.Start` | bkclient-portal/app/models/instance.rb:192-212 | `start` succeeds if and only if the listings raise nothing, the machine exists and is reported stopped, and the cloud takes the request; it then queues VMStart, and only then |
| `VmLifecycle.Instance.Send` | bkclient-portal/app/models/instance.rb:196-201 | the request of start, stop and destroy_vm: taken exactly when the cloud answers with a job, which is then remembered with the new state |
| `VmLifecycle.Instance.Stop` | bkclient-portal/app/models/instance.rb:220-244 | `stop` succeeds if and only if the cloud reports a state and takes the request and, unless forced, the machine exists and is reported running |
| `VmLifecycle.Instance.DestroyVm` | bkclient-portal/app/models/instance.rb:251-265 | `destroy_vm` succeeds if and only if the machine exists, is not going by any report, and the cloud takes the request |
| `VmLifecycle.Instance.VncToSpiceProtocol` | bkclient-portal/app/models/instance.rb:92-146 | `VNCToSPICEProtocol` succeeds if and only if the machine is reported running and the switch is answered |
| `VmLifecycle.Instance.PerformDeploy` | bkclient-portal/app/workers/vm_deploy.rb:4-19 | the worker puts itself back exactly when the replies do not show the machine to exist, so at most one such job is queued |
| `VmLifecycle.Instance.PerformStart` | bkclient-portal/app/workers/vm_start.rb:4-17 | polls again exactly while the machine is starting, destroyed, or the cloud is silent |
| `VmLifecycle.Instance.PerformStop` | bkclient-portal/app/workers/vm_stop.rb:4-13 | polls again exactly while the machine is stopping, destroyed, or the cloud is silent |
| `VmLifecycle.Instance.PerformDestroy` | bkclient-portal/app/workers/vm_destroy.rb:4-28 | the state written and the polling for every answer; compared with numbers, a status given as text changes nothing |
| `VmLifecycle.Instance.Perform` | bkclient-portal/app/workers/vm_deploy.rb:1-21 | one job from the queue, put back by itself, after an exception, or not: the queue never gains a job |
| `VmLifecycle.Instance.Run` | bkclient-portal/app/models/instance.rb:149-295 | every interleaving of methods and workers, with every cloud that never reports "pending" and gives no job id that counts as true: pending is never re-entered, at most one deploy succeeds, at most one VMDeploy is queued, job_created_id goes from nothing to an id to "1", the machine's id is written once, with that last move, and start, unforced stop and destroy are sent only after it |

## Left out

- BigIntegers.BigInteger.DivRemTo: after an estimate that was too low, with 26-bit digits, nothing is claimed of the quotient, whose digits may exceed DV, nor of the remainder but its length and sign; unless it was the last estimate, the next one can make up for it.
- BigIntegers.BigInteger.Am1: a multiplier of 2 * DV or more, which only such a division can go on with, can take a sum past 2^53; it is not rounded here.
- ModPow.ModPowInt: a negative x that such a division made a negative Montgomery number is not followed further; the original then reads digits that do not exist.
- `bnpFromString` and `bnToString` in bases that are not powers of two.
- RadixText.FromString: texts with digits that the base does not have are excluded; the original mixes their high bits into the digits, which then need not be digits at all.
- Objects shared as `BigInteger.ZERO` and `ONE` are made afresh where they are used; the mask `um` is kept as its number of bits, and the test `0 != u` in `bnpDivRemTo`, which always holds, is dropped.
- QUIC rows after the first, `decode_run`, the 5-bit family, the alpha channel and the header of an image: other loops over the same window, code and model. The header is five words of the window that `DecodeEat32bits` moves along.
- The values of `tabrand_chaos`: the claims hold for every table of 256 numbers. The repository has no QUIC or LZ encoder; the encodings are written from what the decoder reads.
- Lz.LzRgb32Decompress: input that no token list encodes is excluded; the original then writes whatever its indices yield.
- Socket events other than open and data, `SpiceLinkMess`, channel-specific messages, and the capability lists.
- SHA-1 and the random source of OAEP: an arbitrary function with results of 20 bytes, and an arbitrary seed. Message and label are byte strings.
- Cache keys that are names of properties every JavaScript object inherits, which the hashes of the cache would find; `info` and `destroy`.
- Regular expression characters in host names: the match is an arbitrary predicate on lines, of which a literal name is one instance. Host names that contain a newline are excluded where text is appended.
- HTTP, SSH, Redis and database mechanics: replies of the cloud are arbitrary, every method or worker run is one atomic step, a failed job may or may not be put back, and validations of a record always pass.
- What happens in time: whether a job ever finishes, and delays.
- Canvas, DOM, cursors, JPEG, PNG, Arcfour, and the rest of the bundle; controllers, mailers, synchronisation with the cloud, the Cassandra scripts and the CAS server.
