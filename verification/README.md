# Verified models of mini-gmp, the prover server, and two small algorithms

Dafny models of the C code that is shipped with Why3, each with proofs of what the code promises.

**Multi-precision arithmetic** (`examples/multiprecision/mini-gmp/mini-gmp.c`). Natural numbers are arrays of
64-bit limbs; `Mpn.Val` is the number that a part of such an array stands for. The `mpn_` loops are methods that
update arrays in place, with explicit wrap-around, carries and the aliasing that the original allows. Integers are
objects of class `Mpz.Mpz` with a signed size and a limb array. The number theory (gcd, modular power, roots,
primality) keeps the loops of the original, over the integers that the objects hold; where the original compares
sizes in limbs, `GcdExt.LimbSize` does.

* `Arith`, `Bits`, `Limb`: integer facts, bitwise operations on all integers, one-limb and two-limb arithmetic.
* `Reciprocal`, `Inverse`, `Mpn*`: division through precomputed inverses, up to the quotient and remainder of
  arrays of any length.
* `LimbLogic`, `Mpz`, `MpzDiv*`, `MpzRem2exp`: signed numbers, two's-complement logic, rounding divisions.
* `Scan`, `Divisibility`, `Gcd`, `GcdExt`, `Power`, `Congruence`, `Powm`, `Root`, `Prime`, `MillerRabin`,
  `ProbablePrime`: number theory.
* `Numeral`, `MpnGetStr`, `MpnStrBits`, `MpnSetStr`, `MpzStr`, `MpzConvert`: printing and parsing.

**The prover server** (`src/server`). Ring buffer, keyed list, poll list, read and write buffers are classes whose
contents are sequences; request parsing is a method proved against the meaning of a line. `Protocol` is the Unix
server as a state machine: one event is one uninterrupted piece of work of the server or one act of the operating
system (a child exits, a signal is delivered), so exits may come between the read of the pipe and any `wait3`.
`ProtocolSafety` proves what every step keeps, `ProtocolRuns` what holds of requests and processes in every run, and
`ProtocolStreams` what clients send and are sent; `ClientView` takes that apart into lines and fields again.
`ProtocolRounds` says what a round of the main loop is: which events each report of `poll` calls for, in list order,
and where the server stops. `Connections`, `Network` and `Server` are the program itself on those classes: a client
owns its two buffers, the network is the list of clients with the poll list, the server adds the queue and the
process list and has the handlers and the main loop. A `Server` object carries the run of the protocol that it has
performed, and every handler is shown to extend it by exactly the events that its input calls for, so what is proved
for runs holds of the program. What the operating system decides is arbitrary: process ids of new children, which
exited child `wait3` yields, when children exit, what `poll` reports, the bytes that reads yield and the number of
bytes that writes take.

**Two algorithms**. `Quoter` is the command-line quoting of the Windows server with the rules of the Microsoft C
documentation, section "Parsing C command-line arguments", as its inverse. `MersenneTwister` is the 64-bit
generator (`examples/multiprecision/random/mt19937-64.c`) against the recurrence of section 26.5.3.2 of ISO C++11;
`TwisterBits` says what its words are bit by bit, and `DefaultSeed` and `FirstOutput` compute its first output, where
each line of the tables is one step of the computation with its carries.

Four promises turned out to hold only with a condition, and are stated with it in both directions:

* A modular power is in [0, |m|) if and only if the exponent is nonzero or |m| is not 1 (`Powm.PowerMod`);
  `Powm.ZeroExponentCase` is the failing input.
* A quoted argument list is read back if and only if every argument with a tab also has a blank or a double quote
  (`Quoter.ReadsBackExactly`); `Quoter.TabIsLost` is a failing input.
* The answer to a run request goes to the client that asked, as the description of the protocol says, if and only if
  that client was not disconnected in between (`ProtocolStreams.AnswersRequester`): a client is known by its descriptor,
  which the next client may get. `Misdelivery.WrongClient` is a failing run, which the main loop can perform, for every
  request.
* The assertion of `prepare_write` that no write is unfinished fails in a round if and only if a client is reported
  for output, without an error, after a write to that same client has failed (`ProtocolRounds.StopsExactly`,
  `ProtocolRounds.FailedMeaning`, and `Server.Serve` for the program), because only a successful write ends with
  `have_written`. `Server.WriteAgain` is the failing input, for every client with a pending message.

Where comments and code of mini-gmp differ the models follow the code: the comment before the last step of
`mpz_gcdext` bounds a cofactor by |u| / 2g, but the operands may have changed places by then, and
`GcdExt.ExtendedGcd` says which cofactor gets the bound.

Fatal errors of the original (`gmp_die`, a failing assertion) are a `false` result. `hide` in a proof keeps the
verifier from unfolding a definition that the proof does not need.

## Model

| member | source | states |
|---|---|---|
| Limb.AddSsaaaa | examples/multiprecision/mini-gmp/mini-gmp.c:98-104 | two-limb addition is addition modulo B^2 |
| Limb.SubDdmmss | examples/multiprecision/mini-gmp/mini-gmp.c:106-112 | two-limb subtraction is subtraction modulo B^2 |
| Limb.UmulPpmm | examples/multiprecision/mini-gmp/mini-gmp.c:114-137 | the two result limbs are the whole product, although it is put together from four half-limb products with wrap-around |
| Limb.Clz | examples/multiprecision/mini-gmp/mini-gmp.c:79-89 | the count is the one shift that brings the top bit to the top of the limb |
| Reciprocal.EstimateWindow | examples/multiprecision/mini-gmp/mini-gmp.c:158-183 | the partial remainder of the estimated quotient lies in a window of width B^2, which is why wrap-around arithmetic and at most two corrections are enough |
| Reciprocal.Udiv3by2 | examples/multiprecision/mini-gmp/mini-gmp.c:158-183 | with an exact inverse and (n2,n1) < (d1,d0): exact quotient and remainder of three limbs by two, through wrap-around and both corrections |
| Reciprocal.Udiv2by1 | examples/multiprecision/mini-gmp/mini-gmp.c:139-156 | the same for two limbs by one |
| Inverse.HalfInverse | examples/multiprecision/mini-gmp/mini-gmp.c:745-783 | the upper half of the inverse, from half-limb division, with its remainder |
| Inverse.LimbInverse | examples/multiprecision/mini-gmp/mini-gmp.c:785-810 | the full one-limb inverse and its remainder |
| Inverse.ExtendInverse | examples/multiprecision/mini-gmp/mini-gmp.c:812-836 | the correction for the second divisor limb |
| Inverse.Invert3by2 | examples/multiprecision/mini-gmp/mini-gmp.c:736-839 | the result is floor((B^3 - 1) / (B u1 + u0)) - B for every normalised u1 |
| Mpn.Add1 | examples/multiprecision/mini-gmp/mini-gmp.c:397-413 | value of result and carry is the sum; also in place |
| Mpn.AddN | examples/multiprecision/mini-gmp/mini-gmp.c:416-432 | value of result and carry is the sum; operands may be the result array |
| Mpn.Sub1 | examples/multiprecision/mini-gmp/mini-gmp.c:448-466 | value of result less borrow is the difference |
| Mpn.SubN | examples/multiprecision/mini-gmp/mini-gmp.c:469-484 | value of result less borrow is the difference; operands may be the result array |
| Mpn.Mul1 | examples/multiprecision/mini-gmp/mini-gmp.c:500-520 | value of result and carry limb is the product |
| Mpn.Addmul1 | examples/multiprecision/mini-gmp/mini-gmp.c:523-546 | value of result and carry limb is old value plus product; nothing else in the array changes |
| Mpn.Submul1 | examples/multiprecision/mini-gmp/mini-gmp.c:549-572 | value of result less borrow limb is old value minus product; nothing else in the array changes |
| MpnShift.Add | examples/multiprecision/mini-gmp/mini-gmp.c:435-445 | sum of numbers of different lengths |
| MpnShift.Sub | examples/multiprecision/mini-gmp/mini-gmp.c:487-497 | difference of numbers of different lengths |
| MpnShift.Mul | examples/multiprecision/mini-gmp/mini-gmp.c:575-595 | the un + vn result limbs hold the product; the top limb is returned |
| MpnShift.Cmp | examples/multiprecision/mini-gmp/mini-gmp.c:356-364 | sign of the comparison of the two values |
| MpnShift.Cmp4 | examples/multiprecision/mini-gmp/mini-gmp.c:367-373 | the same for normalised numbers of different lengths |
| MpnShift.NormalizedSize | examples/multiprecision/mini-gmp/mini-gmp.c:376-381 | same value, no leading zero limb |
| MpnShift.Lshift | examples/multiprecision/mini-gmp/mini-gmp.c:610-637 | result and shifted-out limb are the value times 2^cnt, also from high to low in place |
| MpnShift.Rshift | examples/multiprecision/mini-gmp/mini-gmp.c:640-664 | result and shifted-out limb are the value times 2^(64-cnt) over B |
| MpnNeg.Com | examples/multiprecision/mini-gmp/mini-gmp.c:707-711 | ones' complement: B^n - 1 - value |
| MpnNeg.Neg | examples/multiprecision/mini-gmp/mini-gmp.c:714-726 | two's complement B^n - value, and whether the value was nonzero |
| MpnDivSmall.DivQr1Invert | examples/multiprecision/mini-gmp/mini-gmp.c:852-861 | shift, normalised divisor and its exact inverse |
| MpnDivSmall.DivQr2Invert | examples/multiprecision/mini-gmp/mini-gmp.c:864-880 | the same for two divisor limbs |
| MpnDivSmall.DivQr1Preinv | examples/multiprecision/mini-gmp/mini-gmp.c:916-946 | exact quotient limbs and remainder by one limb, in place or without quotient |
| MpnDivSmall.DivQr2Preinv | examples/multiprecision/mini-gmp/mini-gmp.c:979-1027 | exact quotient limbs and remainder by two limbs |
| MpnDiv.StepMax | examples/multiprecision/mini-gmp/mini-gmp.c:1072-1077 | the case of equal top limbs: the quotient limb is B - 1 |
| MpnDiv.SubtractEstimate | examples/multiprecision/mini-gmp/mini-gmp.c:1080-1088 | multiply and subtract: the remainder of the estimated quotient limb, and whether it went below zero |
| MpnDiv.AddBack | examples/multiprecision/mini-gmp/mini-gmp.c:1090-1094 | the estimate was one too high: adding the divisor back gives the remainder |
| MpnDiv.DivStep | examples/multiprecision/mini-gmp/mini-gmp.c:1070-1098 | one quotient limb and remainder, exact, whichever branch is taken |
| MpnDiv.DivQrPi1 | examples/multiprecision/mini-gmp/mini-gmp.c:1043-1103 | exact quotient and remainder by a normalised divisor of three or more limbs |
| MpnDiv.DivQrInvert | examples/multiprecision/mini-gmp/mini-gmp.c:883-911 | the inverse prepared from the top limbs of a divisor of any length |
| MpnDiv.DivQrPreinv | examples/multiprecision/mini-gmp/mini-gmp.c:1106-1137 | exact quotient and remainder, with shift in and out, for a divisor of any length |
| MpnDiv.DivQr | examples/multiprecision/mini-gmp/mini-gmp.c:1140-1158 | for every nn >= dn >= 1 and nonzero top divisor limb: quotient n / d in qp, remainder n % d in np |
| Bits.BitByDivision | examples/multiprecision/mini-gmp/mini-gmp.c:3471-3493 | bit i of an integer of any sign is (x / 2^i) mod 2 |
| Bits.BitOfBitwise | examples/multiprecision/mini-gmp/mini-gmp.c:3471-3493 | bit i of the operation on two integers of any sign is the operation on their bits i: what and, or and exclusive or mean on infinite two's-complement numbers |
| Bits.BitsDetermine | examples/multiprecision/mini-gmp/mini-gmp.c:3471-3493 | an integer is determined by its bits |
| LimbLogic.LowLoop | examples/multiprecision/mini-gmp/mini-gmp.c:3669-3682 | the three running carries turn sign-magnitude limbs into two's-complement ones and back, one limb at a time |
| LimbLogic.CarryEnds | examples/multiprecision/mini-gmp/mini-gmp.c:3683 | the carry of the shorter operand is zero after its last limb |
| LimbLogic.HighLoop | examples/multiprecision/mini-gmp/mini-gmp.c:3685-3693 | the limbs where only the longer operand is left |
| LimbLogic.LogicLimbs | examples/multiprecision/mini-gmp/mini-gmp.c:3631-3700 | the limbs of the result have the magnitude of the bitwise operation on the two signed numbers |
| Mpz.Mpz.Logic | examples/multiprecision/mini-gmp/mini-gmp.c:3631-3842 | and, inclusive or and exclusive or equal the operation on infinite two's-complement integers for every sign and size; the result is normalised and may be an operand |
| Mpz.Mpz.Set | examples/multiprecision/mini-gmp/mini-gmp.c:1501-1515 | copies the number |
| Mpz.Mpz.AbsAdd | examples/multiprecision/mini-gmp/mini-gmp.c:1943-1962 | magnitude of the sum of magnitudes |
| Mpz.Mpz.AbsSub | examples/multiprecision/mini-gmp/mini-gmp.c:1965-1987 | signed size of the difference of magnitudes |
| Mpz.Mpz.Plus | examples/multiprecision/mini-gmp/mini-gmp.c:1990-2000 | integer addition, operands may be the result |
| Mpz.Mpz.Minus | examples/multiprecision/mini-gmp/mini-gmp.c:2003-2013 | integer subtraction, operands may be the result |
| Mpz.Mpz.PlusUi | examples/multiprecision/mini-gmp/mini-gmp.c:1916-1922 | addition of a limb |
| Mpz.Mpz.MinusUi | examples/multiprecision/mini-gmp/mini-gmp.c:1925-1931 | subtraction of a limb |
| MpzDiv.DivQuoRem | examples/multiprecision/mini-gmp/mini-gmp.c:2172-2281 | n = q d + r with q rounded down, up or toward zero as the mode says and |r| < |d|; a zero divisor is the error; tells whether r is nonzero; q and r may be null, or n or d |
| MpzDiv.RoundedUnique | examples/multiprecision/mini-gmp/mini-gmp.c:2167-2281 | the mode determines quotient and remainder |
| MpzDiv.RoundedBounds | examples/multiprecision/mini-gmp/mini-gmp.c:2167-2281 | what the modes mean: q is the floor, the ceiling or the truncation of n / d |
| MpzDiv.Mod | examples/multiprecision/mini-gmp/mini-gmp.c:2338-2341 | the remainder in [0, |d|) |
| MpzDiv2exp.AnyBitBelow | examples/multiprecision/mini-gmp/mini-gmp.c:2362-2370 | the adjustment is needed exactly when the remainder by 2^k is nonzero |
| MpzDiv2exp.DivQ2exp | examples/multiprecision/mini-gmp/mini-gmp.c:2344-2395 | the shifted quotient is the rounded quotient by 2^k |
| MpzRem2exp.NegateAndExtend | examples/multiprecision/mini-gmp/mini-gmp.c:2423-2434 | a number below 2^k rounded away: 2^k - |u|, filled up with ones |
| MpzRem2exp.ReduceLimbs | examples/multiprecision/mini-gmp/mini-gmp.c:2444-2462 | low bits, or what is missing to 2^k |
| MpzRem2exp.DivR2exp | examples/multiprecision/mini-gmp/mini-gmp.c:2398-2465 | the remainder that goes with the rounded quotient by 2^k; with RoundedUnique it is that of general division |
| Scan.Ctz | examples/multiprecision/mini-gmp/mini-gmp.c:91-96 | x & -x picks the lowest bit, so the count is the number of trailing zeros |
| Scan.CommonScan | examples/multiprecision/mini-gmp/mini-gmp.c:666-684 | the place of the lowest set bit from limb i on, complemented or not; at the end of the array all ones or the length in bits |
| Scan.LowestOne | examples/multiprecision/mini-gmp/mini-gmp.c:2752 | the scan of mpz_make_odd finds the number of trailing zero bits |
| Scan.MakeOdd | examples/multiprecision/mini-gmp/mini-gmp.c:2746-2756 | divides out all factors of two |
| Gcd.Gcd11 | examples/multiprecision/mini-gmp/mini-gmp.c:2680-2720 | the greatest common divisor of two limbs |
| Gcd.GcdUi | examples/multiprecision/mini-gmp/mini-gmp.c:2723-2743 | gcd of an integer and a limb, and the value returned |
| Gcd.GcdOf | examples/multiprecision/mini-gmp/mini-gmp.c:2759-2819 | greatest common divisor of two integers |
| Divisibility.GcdUnique | examples/multiprecision/mini-gmp/mini-gmp.c:2759-2819 | the gcd is unique, so the two gcd algorithms agree |
| GcdExt.BinarySteps | examples/multiprecision/mini-gmp/mini-gmp.c:2915-2948 | keeps u = t0 tu + t1 tv, v = s0 tu + s1 tv and determinant 2^power until tu = tv |
| GcdExt.OddGcd | examples/multiprecision/mini-gmp/mini-gmp.c:2900-2955 | the odd gcd, and cofactors of 2^power times it with their bound |
| GcdExt.HalvingExact | examples/multiprecision/mini-gmp/mini-gmp.c:2965-2975 | every halving of the cofactors is exact after at most one correction |
| GcdExt.RemoveTwos | examples/multiprecision/mini-gmp/mini-gmp.c:2965-2975 | cofactors of 1 for the reduced operands, in range |
| GcdExt.ExtendedGcd | examples/multiprecision/mini-gmp/mini-gmp.c:2822-3001 | g = gcd(u, v) = s u + t v, and the cofactor of the operand that comes first is at most half the other operand over g |
| GcdExt.Invert | examples/multiprecision/mini-gmp/mini-gmp.c:3040-3069 | finds r with u r = 1 mod m and 0 < r < |m| exactly when u and m are coprime, u is nonzero and |m| > 1 |
| Power.PowUi | examples/multiprecision/mini-gmp/mini-gmp.c:3075-3093 | the power, by 64 squarings |
| Root.MeansInequality | examples/multiprecision/mini-gmp/mini-gmp.c:3253-3260 | x^z + (z-1) u^z >= z x u^(z-1): the inequality of means behind the Newton step |
| Root.NewtonAbove | examples/multiprecision/mini-gmp/mini-gmp.c:3254-3259 | a Newton step never falls below the root |
| Root.NewtonStops | examples/multiprecision/mini-gmp/mini-gmp.c:3260 | a step that does not go down started at most at the root |
| Root.StartAbove | examples/multiprecision/mini-gmp/mini-gmp.c:3237 | 2^(bits/z + 1) is above the root |
| Root.RootLoop | examples/multiprecision/mini-gmp/mini-gmp.c:3246-3263 | the loop ends with the root, for either sign |
| Root.SqrtLoop | examples/multiprecision/mini-gmp/mini-gmp.c:3239-3245 | the same for z = 2 |
| Root.RootRem | examples/multiprecision/mini-gmp/mini-gmp.c:3216-3273 | for every z >= 1 and y (y >= 0 for even z): x is the z-th root truncated toward zero and y = x^z + r; the other inputs are the two errors |
| Root.RootUnique | examples/multiprecision/mini-gmp/mini-gmp.c:3214-3273 | the truncated root is unique |
| Root.RemainderSign | examples/multiprecision/mini-gmp/mini-gmp.c:3214-3273 | the remainder has the sign of y and is less than the gap to the next power |
| MpnDiv.WithoutShift | examples/multiprecision/mini-gmp/mini-gmp.c:3124-3137 | an inverse prepared for m serves, with its shift set to 0, for m 2^shift |
| MpnDiv.NormalizeOnce | examples/multiprecision/mini-gmp/mini-gmp.c:3124-3137 | the limbs of m 2^shift, with an inverse that serves for them without the shift, and for m with it |
| MpnDiv.ReduceOnce | examples/multiprecision/mini-gmp/mini-gmp.c:3181-3185 | the reduction of the loop is the remainder by m 2^shift |
| Powm.ReduceObject | examples/multiprecision/mini-gmp/mini-gmp.c:3181-3185 | the same on an object, in place: the remainder by m 2^shift if the number has more limbs than m, else no change |
| Powm.NormalizeAndReduce | examples/multiprecision/mini-gmp/mini-gmp.c:3124-3185 | set-up and reduction together: the object stays congruent modulo m |
| Powm.NormalizeModulus | examples/multiprecision/mini-gmp/mini-gmp.c:3124-3137 | the shifted modulus is a multiple of m that fills its limbs |
| Powm.ReduceBase | examples/multiprecision/mini-gmp/mini-gmp.c:3146-3168 | the reduced base is congruent to b, also for negative b |
| Powm.PowerLimb | examples/multiprecision/mini-gmp/mini-gmp.c:3173-3189 | 64 exponent bits with reductions only when the size exceeds that of m |
| Powm.PowerMod | examples/multiprecision/mini-gmp/mini-gmp.c:3103-3205 | b^e mod |m| for e > 0, the power of the inverse for e < 0, 1 for e = 0; the result is in [0, |m|) if and only if e is nonzero or |m| is not 1; which inputs are fatal |
| Powm.ZeroExponentCase | examples/multiprecision/mini-gmp/mini-gmp.c:3118-3122 | exponent 0 and modulus 1 give 1, outside [0, 1) |
| Powm.PowerModUi | examples/multiprecision/mini-gmp/mini-gmp.c:3208-3212 | the same with a limb as exponent |
| Prime.Euclid | examples/multiprecision/mini-gmp/mini-gmp.c:3375-3400 | a prime that divides a product divides a factor |
| Prime.Fermat | examples/multiprecision/mini-gmp/mini-gmp.c:3375-3400 | Fermat's little theorem, from the binomial theorem |
| Prime.RootsOfOne | examples/multiprecision/mini-gmp/mini-gmp.c:3390-3396 | modulo a prime only 1 and -1 square to 1 |
| MillerRabin.StrongTest | examples/multiprecision/mini-gmp/mini-gmp.c:3377-3400 | if n - 1 is q 2^k: the answer is yes if and only if a^(n-1) is 1 modulo n, and whenever one of the powers a^(q 2^(i+1)) is 1 its root a^(q 2^i) is 1 or -1 |
| MillerRabin.StrongIsRoots | examples/multiprecision/mini-gmp/mini-gmp.c:3377-3400 | the loop that looks for -1 on the way up finds exactly the numbers that show no other square root of 1 on the way down |
| MillerRabin.PrimesPass | examples/multiprecision/mini-gmp/mini-gmp.c:3377-3400 | a prime passes for every base that it does not divide |
| ProbablePrime.TableCorrect | examples/multiprecision/mini-gmp/mini-gmp.c:3406-3428 | the mask has a bit for exactly the odd primes below 64 |
| ProbablePrime.Lookup | examples/multiprecision/mini-gmp/mini-gmp.c:3427-3428 | the table lookup decides primality of odd numbers below 64 |
| ProbablePrime.NoListedFactor | examples/multiprecision/mini-gmp/mini-gmp.c:3430-3435 | gcd 1 with the product of the small primes rules out every divisor up to 30 |
| ProbablePrime.LargePrimeCoprime | examples/multiprecision/mini-gmp/mini-gmp.c:3430-3431 | a prime from 64 on is not rejected by the gcd |
| ProbablePrime.TestBases | examples/multiprecision/mini-gmp/mini-gmp.c:3451-3462 | every base of the sequence is tried, up to reps or n - 1, and the early stop can only happen from the thirtieth on |
| ProbablePrime.ProbabPrime | examples/multiprecision/mini-gmp/mini-gmp.c:3410-3468 | primes are never rejected, 2 is given only to primes, and below 961 exactly to them; from 961 on 1 means, written out in residues: odd, no factor in 3, 5, ..., 29, and to every base j^2 + j + 41 below n - 1 with j < reps the power n - 1 is 1 and no square root of 1 but 1 and -1 is met |
| MpnGetStr.BaseInfo | examples/multiprecision/mini-gmp/mini-gmp.c:1188-1200 | the largest power of the base that fits in a limb |
| MpnGetStr.LimbGetStr | examples/multiprecision/mini-gmp/mini-gmp.c:1244-1262 | digits of a limb, lowest first, without zero on top |
| MpnGetStr.PutBlock | examples/multiprecision/mini-gmp/mini-gmp.c:1288-1291 | an inner block has exactly exp digits, padded with zeros |
| MpnGetStr.ReverseBytes | examples/multiprecision/mini-gmp/mini-gmp.c:1297-1303 | the in-place reversal |
| MpnGetStr.GetStrOther | examples/multiprecision/mini-gmp/mini-gmp.c:1265-1306 | the digits written are a numeral of the value: in range, no leading zero, right value |
| MpnStrBits.NextDigit | examples/multiprecision/mini-gmp/mini-gmp.c:1225-1237 | a digit cut out of one limb or across two |
| MpnStrBits.GetStrBits | examples/multiprecision/mini-gmp/mini-gmp.c:1213-1239 | the same numeral by slicing bits |
| MpnSetStr.PlaceDigit | examples/multiprecision/mini-gmp/mini-gmp.c:1336-1354 | a digit gets the weight of its place, also across a limb boundary |
| MpnSetStr.SetStrBits | examples/multiprecision/mini-gmp/mini-gmp.c:1329-1357 | the limbs hold the number of the digits, normalised |
| MpnSetStr.SetStrOther | examples/multiprecision/mini-gmp/mini-gmp.c:1362-1397 | Horner's rule over blocks: the limbs hold the number of the digits |
| Numeral.NumeralUnique | examples/multiprecision/mini-gmp/mini-gmp.c:1212-1306 | a number has one numeral, so both paths give the same digits |
| MpzConvert.SizeInBase | examples/multiprecision/mini-gmp/mini-gmp.c:4006-4056 | the exact number of digits, and 1 for zero |
| MpzConvert.GetStr | examples/multiprecision/mini-gmp/mini-gmp.c:4059-4121 | the text: sign, digits in lower or upper case, base 10 for |base| <= 1, none above 36 |
| MpzConvert.SetStr | examples/multiprecision/mini-gmp/mini-gmp.c:4124-4225 | parses what the grammar says, with white space, sign and base prefixes; a bad text is an error and leaves 0 |
| MpzStr.FormatParses | examples/multiprecision/mini-gmp/mini-gmp.c:4059-4225 | the text of every integer in every base 2..36 and either case parses back to it |
| MpzStr.HexParses | examples/multiprecision/mini-gmp/mini-gmp.c:4141-4160 | 0x or 0X and hexadecimal digits, in base 0 |
| MpzStr.BinaryParses | examples/multiprecision/mini-gmp/mini-gmp.c:4141-4160 | 0b or 0B and binary digits, in base 0 |
| MpzStr.OctalParses | examples/multiprecision/mini-gmp/mini-gmp.c:4141-4160 | 0 and octal digits, if any, in base 0 |
| MpzStr.DecimalParses | examples/multiprecision/mini-gmp/mini-gmp.c:4141-4160 | decimal digits that do not start with 0, in base 0 |
| MpzStr.BaseZeroParses | examples/multiprecision/mini-gmp/mini-gmp.c:4124-4160 | every integer is read back in base 0 behind the prefix of its base, in either case |
| MpzStr.SpacesInFront | examples/multiprecision/mini-gmp/mini-gmp.c:4135-4136 | the six kinds of white space in front change nothing, for every text and base |
| MpzStr.CollectExactly | examples/multiprecision/mini-gmp/mini-gmp.c:4169-4192 | digits are read from a text if and only if, without white space, it consists of their characters in either case, each below the base |
| MpzStr.FormatChars | examples/multiprecision/mini-gmp/mini-gmp.c:4066-4074 | each digit is printed with its character of the lower-case or upper-case alphabet, written out |
| MpzConvert.PrintThenParse | examples/multiprecision/mini-gmp/mini-gmp.c:4059-4225 | get_str and then set_str leaves the same integer in the object |
| RingQueue.Queue.Pop | src/server/queue.c:30-37 | takes the first element of the sequence, across wrap-around |
| RingQueue.Queue.SimplePush | src/server/queue.c:39-42 | appends to the sequence, across wrap-around |
| RingQueue.Queue.Resize | src/server/queue.c:44-56 | doubling keeps the sequence, wherever the start is |
| RingQueue.Queue.Push | src/server/queue.c:58-63 | appends to the sequence, growing if full |
| KeyedList.List.LookupIndex | src/server/arraylist.c:35-42 | the first place with the key |
| KeyedList.List.Find | src/server/arraylist.c:44-51 | map lookup when keys are distinct |
| KeyedList.List.Remove | src/server/arraylist.c:53-61 | one pair with the key goes; removal from the map when keys are distinct |
| KeyedList.SwapRemoveMap | src/server/arraylist.c:53-61 | moving the last element into the gap is removal from the map |
| KeyedList.List.Append | src/server/arraylist.c:70-84 | appends a pair, with growth; map update for a new key |
| ReadBuf.Buffer.Prepare | src/server/readbuf.c:34-39 | room for the read, same contents |
| ReadBuf.Buffer.HaveRead | src/server/readbuf.c:41-44 | the bytes read are appended |
| ReadBuf.Buffer.HaveTaken | src/server/readbuf.c:46-50 | the first bytes are dropped |
| ReadBuf.Buffer.ScanLines | src/server/server-unix.c:501-541 | the lines handed out are the complete lines of the buffer |
| ReadBuf.Buffer.TakeLines | src/server/server-unix.c:501-545 | and the unfinished tail stays in the buffer |
| ReadBuf.ReadChunk | src/server/server-unix.c:565-578 | one read of any size |
| ReadBuf.ReadAll | src/server/server-unix.c:501-578 | for every stream and every cutting into reads: exactly the lines of the stream, and its tail in the buffer |
| Framing.FeedIsWhole | src/server/server-unix.c:501-578 | the same as a law about texts |
| Framing.LinesUnique | src/server/server-unix.c:510-541 | there is one way to see a text as newline-free lines and a tail |
| WriteBuf.Buffer.Push | src/server/writebuf.c:63-71 | the message is appended to what is pending |
| WriteBuf.Buffer.PrepareWrite | src/server/writebuf.c:28-34 | the rest of the current message |
| WriteBuf.Buffer.HaveWritten | src/server/writebuf.c:36-53 | written bytes leave the front of what is pending; the next message is taken from the queue |
| WriteBuf.Buffer.AcknowledgedIsPrefix | src/server/writebuf.c:28-71 | acknowledged bytes are a prefix of the pushed ones and the rest is exactly what is pending |
| WriteBuf.Drive | src/server/writebuf.c:28-71 | the same over every run of pushes and partial writes, with the output flag up exactly while a message is there |
| Request.CountSemicolons | src/server/request.c:33-41 | one less than the number of fields |
| Request.CopyUpToSemicolon | src/server/request.c:43-58 | the next field, and where to go on |
| Request.SamePrefixIsEqual | src/server/request.c:73-102 | the bounded comparison with a keyword is equality of C strings |
| Request.ParseRequest | src/server/request.c:60-128 | what a line means, for every line: nothing, a new limit, an interrupt or a run request |
| Request.JoinedRunParses | src/server/request.c:60-128 | joined plain fields come back as kind, identifier, limits, command and arguments |
| Request.JoinedInterruptParses | src/server/request.c:85-92 | the same for interrupts |
| Request.JoinedOtherwise | src/server/request.c:60-125 | all other lines of fields ask for nothing |
| Request.CStringCut | src/server/request.c:76-90 | what follows a NUL in a field does not matter |
| Request.RemoveFromQueue | src/server/request.c:175-187 | the requests with another identifier stay, in order |
| Wire.RequestsArrive | src/server/server-unix.c:501-578 | requests sent one per line arrive as sent, however the stream is cut |
| Wire.DecimalReads | src/server/request.c:79-82 | atoi of the decimal text of every integer is that integer |
| Wire.AtoiReads | src/server/request.c:79-120 | white space, a sign or none, and decimal digits are read as the signed number, whatever follows |
| Wire.JoinedParallelParses | src/server/request.c:73-84 | a limit sent as its decimal text is set if it is positive, and ignored otherwise |
| Wire.RunRequestParses | src/server/request.c:96-125 | a run request sent with its limits as decimal texts arrives with all its parts, for all limits |
| PollList.List.Clean | src/server/server-unix.c:111-119 | sweeping keeps exactly the entries that are not marked, with what they ask for |
| PollList.List.Remove | src/server/server-unix.c:121-129 | marks the entry of the descriptor: it is no longer watched, all others are |
| PollList.List.Add | src/server/server-unix.c:91-100 | one more watched descriptor, without output |
| PollList.List.AskOutput | src/server/server-unix.c:279-286 | the entry of the descriptor, if there is one, asks for output |
| Connections.Connection.Push | src/server/writebuf.c:63-71 | on the client object: the message joins the pending bytes and nothing else changes |
| Connections.Connection.Receive | src/server/server-unix.c:565-577 | on the client object: the bytes read join the unread ones and nothing else changes |
| Network.Network.Accept | src/server/server-unix.c:143-159 | on client list and poll list: a client with empty buffers joins, watched for input; every other client and its entry stay |
| Network.Network.Close | src/server/server-unix.c:552-562 | on client list and poll list: the client and its entry go, all others stay |
| Network.Network.QueueWrite | src/server/server-unix.c:279-286 | the message joins the pending bytes of that client, whose entry now asks for output; all other clients stay |
| Network.Network.WriteToClient | src/server/server-unix.c:366-377 | the bytes taken, which are the smaller of what write takes and what is left of the current message, move from pending to written, and the entry asks for output exactly while a message is pending |
| Network.Network.OneEntry | src/server/server-unix.c:91-129 | through accept, close, reuse of descriptors and sweep: every client has exactly one entry in the poll list, and it asks for output exactly when its write buffer has data |
| Network.Network.EntryOwner | src/server/server-unix.c:601-634 | every entry is marked or belongs to the socket, the pipe or a client: the lookup in the main loop never misses |
| Server.Server.RunRequest | src/server/server-unix.c:470-499 | on ring queue, lists and buffers: without a client for the key only the fate changes; otherwise the process list gets the process and the client exactly the start message |
| Server.Server.KillProcesses | src/server/proc.c:37-43 | the loop over the process list sends a kill signal to exactly the processes with the identifier |
| Server.Server.Interrupt | src/server/server-unix.c:529-535 | both effects of an interrupt: the queued requests with the identifier go, the running ones are killed |
| Server.Server.AdmitRun | src/server/server-unix.c:518-528 | a run request is started below the limit and queued at it |
| Server.Server.HandleMsg | src/server/server-unix.c:501-545 | the lines handled are exactly the complete lines of the read buffer, each once, in order and with its meaning, although the buffer is emptied only at the end; the unfinished line stays; each line is a step of the protocol and children may exit between two lines |
| Server.Server.ReadOnClient | src/server/server-unix.c:565-578 | an error changes nothing, end of file closes, and otherwise the events are the receipt of the bytes and the complete lines of what was left over and what arrived, each once, in order and with its meaning; the unfinished line stays |
| Server.Server.ScheduleNewJobs | src/server/server-unix.c:580-586 | terminates with the queue empty or the limit reached; each round is a step of the protocol |
| Server.Server.ReapNext | src/server/server-unix.c:433-465 | the child is in the process list; it goes, and the client with its key, if any, gets the finish message |
| Server.Server.HandleChildEvents | src/server/server-unix.c:427-466 | one wait3 at a time, with exits allowed in between: terminates, and every child that had exited at the call is out of the process list; the events are exits, signals and reaps, then the end |
| Server.Server.WriteToClient | src/server/server-unix.c:366-377 | a write of n bytes, or of all that is left of the current message, is a step of the protocol |
| Server.Server.AcceptClient | src/server/server-unix.c:143-159 | a step of the protocol |
| Server.Server.CloseClient | src/server/server-unix.c:552-562 | a step of the protocol; queued and running requests stay |
| Server.Server.ServeClient | src/server/server-unix.c:625-634 | an error closes the client, output is one write of the bytes that write takes or a failed write, input is read; it stops, at the assertion of prepare_write and without any event, if and only if output is reported without an error and a write to this client has failed |
| Server.Server.ServeSocket | src/server/server-unix.c:619-623 | the client that accept yields is connected and watched, if the descriptor is not in use |
| Server.Server.ServePipe | src/server/server-unix.c:608-617 | a byte is read and the reaping loop is performed to its end: every child that had exited is out of the process list |
| Server.Server.ServeEntry | src/server/server-unix.c:601-635 | the events are exactly those that the report of the entry calls for, or the server stops; the reports of the other entries stay as they are |
| Server.Server.Dispatch | src/server/server-unix.c:601-636 | every report that poll made is acted on, once, in list order and with its input, up to the entry at which the server stops, if there is one; terminates although clients that connect make the list longer |
| Server.Server.Round | src/server/server-unix.c:594-637 | starts of queued requests, then a poll that watches every client, the socket and the pipe, each once, then the dispatch of everything it reported; if the pipe held a byte at the poll, every child that had exited by then is reaped when the round ends |
| Server.Serve | src/server/server-unix.c:588-638 | for any number of rounds and all answers of the operating system: what the server does is a run of the protocol from the start limit on, made of one such round for each poll; without failing writes it never stops |
| Server.WriteAgain | src/server/server-unix.c:366-377 | for every client with pending messages: a write that fails, then a report of output, and the server stops |
| ProtocolRounds.StopsExactly | src/server/server-unix.c:601-636 | a round stops if and only if it gets to an entry with output reported, and no error, for a descriptor with a failed write |
| ProtocolRounds.FailedMeaning | src/server/writebuf.c:28-53 | a descriptor has a failed write if and only if some write failed to the client that still has it |
| ProtocolRounds.ExitedIsReaped | src/server/server-unix.c:427-466 | in every run, a child that has exited before a reaping loop ends is reaped by then |
| ProtocolRounds.WakeUpKept | src/server/server-unix.c:608-617 | in every run: if a byte was in the pipe when poll returned, the request of every child that had exited has fate reaped from the end of that round on |
| Server.Server.Promised | src/server/server-unix.c:588-638 | so the invariant of the protocol holds of the objects at any time |
| ProtocolSafety.StepTickets | src/server/server-unix.c:427-545 | every step keeps: each numbered request has one fate, queue and process list hold exactly the queued and running requests with their data |
| ProtocolSafety.StepFate | src/server/server-unix.c:427-545 | what one step makes of a fate, from the queue, the process list, the clients and the event alone |
| ProtocolSafety.WithoutElements | src/server/request.c:175-187 | an interrupt leaves exactly the requests with another identifier, in order |
| ProtocolSafety.StepData | src/server/server-unix.c:279-286 | a step adds to a connection exactly the text of the message that it owes to that key, and never takes back written bytes |
| ProtocolRuns.OnePlace | src/server/server-unix.c:427-545 | in every run each accepted run request is in exactly one of: queued, running, reaped, cancelled, dropped; the queue is in order of acceptance |
| ProtocolRuns.WhyFate | src/server/server-unix.c:427-545 | in every run: cancelled if and only if an interrupt with its identifier came while it was queued; dropped if and only if its turn came and its key had no client; running or reaped if and only if its turn came and its key had a client; reaped if and only if its process was waited for |
| ProtocolRuns.WhyKilled | src/server/proc.c:37-43 | in every run a process was sent a kill signal if and only if an interrupt with its identifier came while it was running |
| ProtocolRuns.AllAreNumbered | src/server/server-unix.c:518-528 | the numbered requests are exactly the run requests in the lines that were handled, in order |
| ProtocolRuns.ReaperFinds | src/server/server-unix.c:455-456 | every child of the server is in the process list: the lookup never misses |
| ProtocolStreams.ConnectionData | src/server/server-unix.c:379-425 | from its acceptance on, the bytes written to a client and those pending are exactly the texts of the messages owed to its key, in order |
| ProtocolStreams.MessagesOnce | src/server/server-unix.c:379-425 | in every run: one start message for a request that was started, one finish message if it was reaped while its key had a client, no other message, no finish before the start |
| ProtocolStreams.ClientReadsOnce | src/server/server-unix.c:379-425 | for every connection and request: among the texts that are exactly the data of the connection, one start message if the request has its key and was started since its acceptance, one finish message if it has its key and was reaped since then, and no other about it |
| ProtocolStreams.MessageTexts | src/server/server-unix.c:379-425 | a start message is S;id and a finish message begins with F;id; with the identifier and key of the request, and ends its line |
| ClientView.ClientUnderstands | src/server/README.server:59-78 | for every connection: what a client is sent, split into lines and fields, is in order one line for each message for its key, and nothing else: S and the identifier for a request that was started, F, the identifier and the details of the child that was waited for |
| ClientView.IdsAreClean | src/server/README.server:46-49 | no identifier of an accepted request has a newline or a semicolon, in every run |
| ClientView.BytesWritten | src/server/server-unix.c:366-377 | the bytes written to a connection are as many as its writes took |
| ProtocolStreams.ConnectionInput | src/server/server-unix.c:501-578 | from its acceptance on, the lines handled for a client are the first lines of the bytes received from it, each once, in order and with its meaning; the unread bytes hold the rest |
| ProtocolStreams.AnswersRequester | src/server/README.server:59-68 | a message goes to the connection that asked for the run if and only if that connection was not closed in between |
| Misdelivery.WrongClient | src/server/README.server:59-68 | for every run request, and however its line is cut into reads, a run with one entry served per poll in which another client, with the same descriptor, gets the finish message |
| ProtocolRuns.StartsBelowLimit | src/server/server-unix.c:520-528 | no step starts a process at or above the limit |
| ProtocolRuns.WaitsWhenDone | src/server/server-unix.c:595-599 | at every poll the queue is empty or the limit is reached; Server.Server.ScheduleNewJobs shows that the loop gets there |
| ProtocolRuns.LimitInForce | src/server/request.c:73-84 | in every run the limit in force is the one that the last parallel line has asked for, and the start limit if there was none |
| ProtocolRuns.RunInv | src/server/server-unix.c:588-638 | the invariant holds in every state of every run |
| ProtocolRuns.CountBelowHighest | src/server/server-unix.c:580-598 | the number of processes never exceeds the largest limit that was in force, which is the start limit or one that a line has asked for |
| ProtocolRuns.ScheduleProgress | src/server/server-unix.c:580-586 | every round takes the oldest queued request, so scheduling ends |
| ProtocolSafety.StepWakeUp | src/server/server-unix.c:608-617 | exits and signals between any two steps keep the wake-up promise |
| ProtocolRuns.NothingIsLost | src/server/server-unix.c:161-171 | an exited child that was not waited for implies a signal under way, a byte in the pipe, or an active reaping loop |
| ProtocolRuns.PipeBytes | src/server/server-unix.c:164-171 | in every run the pipe holds one byte for each signal, less one for each read, until it is full |
| Quoter.RepeatBackslashes | src/server/server-win.c:329-335 | as many backslashes as stand before the place |
| Quoter.AppendArgument | src/server/server-win.c:294-368 | one argument, quoted if it is empty or has a blank or a double quote |
| Quoter.CommandLine | src/server/server-win.c:281-370 | the command line; its arguments read back when there are no tabs |
| Quoter.ReadEvenRun | src/server/server-win.c:310-366 | the documented rule for an even run of backslashes before a double quote: half of them, and the quote delimits |
| Quoter.ReadOddRun | src/server/server-win.c:310-366 | the documented rule for an odd run: half of them and a double quote |
| Quoter.ReadRunOther | src/server/server-win.c:310-366 | the documented rule for backslashes before anything else: themselves |
| Quoter.QuotedArgumentsReadBack | src/server/server-win.c:281-370 | by the Microsoft C rules every argument list without tabs comes back, with empty arguments and backslash runs |
| Quoter.ReadsBackExactly | src/server/server-win.c:281-370 | a list comes back if and only if every argument with a tab also has a blank or a double quote |
| Quoter.TabIsLost | src/server/server-win.c:301-308 | an argument that is a tab does not come back |
| MersenneTwister.Generator.Init | examples/multiprecision/random/mt19937-64.c:72-77 | the start vector of the seed |
| MersenneTwister.Generator.OverwriteAll | examples/multiprecision/random/mt19937-64.c:120-129 | in place, every word of the block becomes the word 312 places on in the recurrence |
| MersenneTwister.Generator.Next | examples/multiprecision/random/mt19937-64.c:106-142 | output n is the tempered word 312 + n, across block boundaries and with the default seed |
| MersenneTwister.RightIsShr | examples/multiprecision/random/mt19937-64.c:135-139 | the right shift of the recurrence is division by a power of two |
| MersenneTwister.LeftIsShl | examples/multiprecision/random/mt19937-64.c:135-139 | the left shift of the recurrence is multiplication by a power of two, without the bits above 64 |
| MersenneTwister.OneSequence | examples/multiprecision/random/mt19937-64.c:120-129 | start and recurrence determine the sequence |
| MersenneTwister.Outputs | examples/multiprecision/random/mt19937-64.c:59-142 | for every seed and n the first n outputs |
| TwisterBits.TwistBits | examples/multiprecision/random/mt19937-64.c:120-129 | each bit of a twisted word, for all words: the next bit of the joined word, and that of the matrix row if the word is odd |
| TwisterBits.JoinedWord | examples/multiprecision/random/mt19937-64.c:121 | the joined word in arithmetic: one word from 2^31 on and the other below |
| TwisterBits.TemperBits | examples/multiprecision/random/mt19937-64.c:136-139 | each bit of a tempered word, for all words, as a sum modulo 2 of bits of the word |
| DefaultSeed.Word156 | examples/multiprecision/random/mt19937-64.c:72-77 | word 156 of the start vector for seed 5489, as a number |
| FirstOutput.DefaultFirst | examples/multiprecision/random/mt19937-64.c:106-142 | the first output without a seed is 14514284786278117030 |

## Left out

- Memory: allocation succeeds, sizes fit their C types, `free` and ownership are not modelled; a list, a poll list and a queue start with room for at least one element.
- Number theory on objects: `GcdExt`, `Powm`, `Root`, `MillerRabin` and `ProbablePrime` work on integers, not on limb arrays (only one reduction of `Powm` is also done on an object), so update in place and aliasing of `mpz_t` arguments are not captured there; `mpz_mul` and `mpz_mul_2exp` enter as integer multiplication.
- Division by one limb as `mpn_div_qr_1` with its power-of-two shortcut, and the `_ui` division wrappers.
- Bit tests, population counts, import and export, factorial, binomials, least common multiple and the square-root wrappers of mini-gmp: they would add only easy members.
- Conversion from and to floating point, and the real-valued outputs of the generator.
- Seeding of the generator by an array of keys.
- Text buffers: digit strings that are only read are sequences; the text handed to `mpz_set_str` is a C string without NUL inside, and `isspace` is that of the C locale.
- Request.Atoi: no overflow, because the original leaves it undefined; the memory limit is not reduced to an unsigned number.
- Protocol: `memcpy` in the read buffer is a move; the pipe is full only with bytes in it; the command that a child executes, shutdown (also after the last client), logging, resource limits, temporary files and the digits of exit code and time in a finish message are left out; `accept`, `fork` and `poll` succeed.
- Request numbers: the number in a queued request and in a process record is bookkeeping of the model, which the original does not have; so are the fates.
- MpzDiv.DivQuoRem: without a wanted quotient the model still computes the quotient limbs, which the original then leaves away.
- Fairness and liveness: nothing is said about children that never exit or clients that never read.
- The Windows event loop and the command name in the quoted command line, which the original copies as it is.
- The WhyML side of the repository, tests, wrappers, build and documentation.
