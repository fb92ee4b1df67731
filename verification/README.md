# Verified models of six components

Dafny models of the parts of the repository in which something can go wrong in an interesting way, with
proofs about every input, every run or every interleaving.

| modules | component |
|---|---|
| `WordBits`, `Ieee754`, `Series`, `Polynomials`, `ExpSeries`, `CudaLogf`, `CudaLogReduction`, `CudaLog`, `CudaExpf`, `Bernstein`, `ErfPolynomial`, `CudaErf`, `CudaSign`, `CudaTanhf`, `CudaErff` | `cuda_math`: range reduction on float encodings, polynomial approximations, sign surgery |
| `LogFile`, `LogLines`, `Logger`, `LoggerRuns` | `Mylog`: the asynchronous logger and its size-limited file |
| `Framing`, `Connection`, `ConferenceWriter` | `DataProcess`: the two frame splitters, the read buffer in front of them, the response writer |
| `SoapRuntime`, `SoapParsers` | the generated SOAP parsers and printers of messages with repeated elements |
| `CpuUsage` | CPU usage from two samples of wrapping counters |
| `Handshake` | two threads taking turns through two semaphores |
| `Sequences`, `Options` | shared helpers |

`dafny verify dfyconfig.toml` checks everything.

## How the code is modelled

**cuda_math.** Encodings are integers 0..2^32-1 (a double is its two halves); the word operations are
arithmetic, each proved equal to its bit-vector operator in `WordBits`. Floating-point operations are
exact over the reals, with named error terms where an error matters: in `CudaLog.Log`, `rho` is the
relative error of the first reciprocal (up to 1e-5, far above half an ulp) and `delta` any error made when
`fd49` is formed; in `CudaErf`, `delta` is the error in `fd50`, and the two conversions to float
round as they like within bounds wide of binary32. The symmetry of `tanhf` and `erff` is stated for an arbitrary
symmetric, monotone rounding after each operation instead, and their accuracy for exact operations. Partial sums
of the power series stand for the logarithm, the exponential and erf, at every order from 8, 10, 12 or 13 on.
`exp2f` enters by its law.

- `logf` is stated for positive normal inputs: line 18 stores the integer -23 in a union that line 30 reads
  as a float, where the commented-out reference at lines 43-53 has the bits of -23.0f.
- `erff` is odd at `x` exactly when the magnitude before the sign copy has a clear sign bit (or the
  polynomial branch is taken). That is so for every `x` under every symmetric, monotone rounding that leaves
  the multiples of 2^-12 up to 1 alone: `CudaSign.ErffIsOdd`.
- `erf` is odd: its magnitude lies in [0, 1] for every argument (`CudaErf.MagnitudeBetween`). That rests on
  tight bounds of a degree-23 polynomial with coefficients that nearly cancel, from its Bernstein form. The same
  bounds show that the magnitude has come within 2^-52 of 1 where the cut-off replaces it by 1.
- `tanhf` and `erff` are compared with the power series of exp and erf on all of their polynomial branches. For
  `erff` the second branch starts where the first one ends, up to 6e-8: `CudaErff.BranchesMeet`.

**Mylog.** A state machine with one step per observable action: any number of threads inside `log()`, the
consumer, the destructor, and direct calls that reach the file. Runs are arbitrary step lists. The state
carries two histories, the strings accepted under the lock and the additions to the file; no step reads
them. What is called an entry is the string put into the queue: the line buffer is shared and filled before
the lock, so it may be another caller's text, which the step `Format` allows. The consumer writing under its
lock, and each direct append or size check, are atomic steps. Log texts contain no NUL character.

- The exit flag is set without the mutex, so the shutdown notification can be lost.
  `Logger.ShutdownCanBeMissedIff` gives the exact state in which it is, and `Logger.MissedShutdownExample`
  a run that gets there.
- What the file shows is stated on its text, split at newlines: `LoggerRuns.FileShowsLastRecords` for all runs, and
  `LoggerRuns.FileShowsAcceptedEntries` in terms of the queued strings for runs that never shrink it.
- Until the destructor starts, every accepted entry is written within eight steps of the consumer for each entry
  before it (`LoggerRuns.AcceptedEntriesGetWritten`), and somebody can always move (`LoggerRuns.SomebodyMoves`).
- `shrinkLogFile` steps past the result of `strchr` without a test. On the files that the logger writes
  that fails exactly for an empty file under a negative limit (`LogFile.CheckSizeFailsIff`).

**DataProcess.** Buffers are byte sequences; methods change queues and arrays in place.

- `Connection` models `AsyncConnection::on_read` (testAsio.cpp, lines 184-200) over the buffer declared in
  testAsio.h. What reads deliver is stated on the bytes alone: nothing is lost, and every message is a frame of its
  declared length; that leaves only one possibility (`Connection.ReadIsDetermined`).
- The 16-bit length can never exceed 65536, so that test is dead.
- A conference frame of declared length 0 keeps the loop from ending, 23 zero bytes for one:
  `Framing.ConferenceLoopEndsIff` is exact. The other results hold for such buffers too, as far as the loop
  gets.
- Nothing keeps a conference frame from declaring fewer bytes than `msgProcess` swaps in place:
  `ConferenceWriter.QueuedAreProcessableIff` says for which buffers every queued message is long enough.
- The device splitter throws `std::out_of_range` when a buffer ends inside an end tag:
  `Framing.DeviceOutcome` is exact.
- A comment in `MsgDefine.h` gives Overload, ConferenceMngHead and JSON as the layout of a frame. The writer copies the
  JSON to offset 22 = sizeof(ConferenceMngHead), over the fields total and index, and sends 22 + length
  bytes. The model follows the code.

**SOAP.** The runtime is a cursor over children (tag, how the content reads as a string, mustUnderstand,
reserved prefix). `FirstError` is the error a whole parse should give and `Values` what each array should
hold; the loops with their pending slots and block lists are proved to give exactly that.

**CPU usage.** Counters are integers taken modulo 2^64 at every store (signed overflow in the source is
two's complement); rates are exact reals.

**Handshake.** `count` is never incremented in either loop, so the loops do not end and runs are unbounded.

## Model

| member | source | states |
|---|---|---|
| WordBits.ShiftRight20IsBitwise | cuda_math/cuda_math.cpp:95 | the shift that extracts the exponent is division by 2^20 |
| WordBits.AndTop9IsBitwise | cuda_math/cuda_math.cpp:15 | masking to the top nine bits is rounding down to a multiple of 2^23 |
| WordBits.AndSignBitIsBitwise | cuda_math/cuda_math.cpp:197 | the sign mask is 0 or 2^31 |
| WordBits.OrSignBitIsBitwise | cuda_math/cuda_math.cpp:198 | or-ing the sign bit sets it once |
| WordBits.XorSignBitIsBitwise | cuda_math/cuda_math.cpp:154 | flipping the top bit adds or subtracts 2^31 |
| WordBits.AndSignAndFractionIsBitwise | cuda_math/cuda_math.cpp:97 | the mask keeps sign and fraction |
| WordBits.OrExponentOfOneIsBitwise | cuda_math/cuda_math.cpp:98 | on a cleared exponent field the or is an addition |
| WordBits.ShiftLeft23IsBitwise | cuda_math/cuda_math.cpp:322 | the left shift moves the low nine bits to the sign and exponent fields |
| Ieee754.NormalValue32 | cuda_math/cuda_math.h:15-19 | the value of a normal binary32 encoding from its fields |
| Ieee754.EncodedValue64 | cuda_math/cuda_math.h:5-13 | encoding then reading the two halves gives back fraction and value, subnormals included |
| Ieee754.DecodeEncode64 | cuda_math/cuda_math.h:5-13 | every finite non-negative double is the encoding of its fields |
| CudaLogf.SchemesClose | cuda_math/cuda_math.cpp:19-27 | the polynomial and the series of ln(1+t), run as Horner schemes side by side, stay within the tabulated distances |
| CudaLogf.TailClose | cuda_math/cuda_math.cpp:19-27 | for every t with abs(t) <= 1/3 the factor of t^2 is within 5.02e-5 of that of every longer partial sum of ln(1+t) |
| CudaLogf.PolynomialApproximatesLn1p | cuda_math/cuda_math.cpp:19-29 | on abs(t) <= 1/3 the polynomial is within 6e-6 of every partial sum of ln(1+t) of order 10 or more |
| CudaLogf.ReducedBits | cuda_math/cuda_math.cpp:14-16 | for every 32-bit pattern the wrap-around subtract, mask, subtract leaves 0x3f2aaaab plus a remainder below 2^23 |
| CudaLogf.Reduce | cuda_math/cuda_math.cpp:11-17 | reduced bits in [0x3f2aaaab, 0x3faaaaab) and m within 1/3 of 1 for every pattern; x = m * 2^k exactly for every positive normal x |
| CudaLogf.ExponentShift | cuda_math/cuda_math.cpp:14-16 | encodings that differ by k * 2^23 have values that differ by the factor 2^k |
| CudaLogf.Logf | cuda_math/cuda_math.cpp:9-40 | for every positive normal x the result is within 6e-6 of k*ln2 plus every partial sum of ln(1+t), where x = (1+t) * 2^k |
| CudaLogReduction.SubnormalScaled | cuda_math/cuda_math.cpp:83-88 | multiplying a subnormal by 2^54 is exact and gives a normal number |
| CudaLogReduction.TimesTwoTo54 | cuda_math/cuda_math.cpp:83-88 | the exact product for positive subnormals; a zero stays that zero, and a negative keeps its sign bit |
| CudaLogReduction.SplitNormal | cuda_math/cuda_math.cpp:95-110 | the integer steps split a normal word exactly and put m's high word in [0x3FE6A09F, 0x3FF6A09E] |
| CudaLogReduction.Reduce | cuda_math/cuda_math.cpp:76-119 | the finite branch is taken exactly by positive finite doubles, subnormals included, and there x = m * 2^k exactly with m in [0.7071067, 1.4142142] |
| CudaLogReduction.MagicValue | cuda_math/cuda_math.cpp:156-161 | high word 0x43300000 and low word n is the double 2^52 + n |
| CudaLogReduction.MagicConversion | cuda_math/cuda_math.cpp:154-163 | the difference of two such doubles is the signed 32-bit k, for all 2^32 words |
| CudaLog.SchemesClose | cuda_math/cuda_math.cpp:132-146 | the polynomial and the series, run as Horner schemes side by side, stay within the tabulated distances |
| CudaLog.PolynomialApproximatesSeries | cuda_math/cuda_math.cpp:131-146 | on the reduced range u + u^3 p(u^2) is within 1.4e-14 of every partial sum of order 8 or more of the series of ln m |
| CudaLog.ReciprocalResidual | cuda_math/cuda_math.cpp:121-127 | the refinement cubes the residual of any first estimate of the reciprocal |
| CudaLog.HeadPlusCorrection | cuda_math/cuda_math.cpp:128-151 | head plus correction is the quotient up to the square of the remaining residual, so up to its sixth power overall |
| CudaLog.RefinedQuotient | cuda_math/cuda_math.cpp:121-130 | for a reciprocal error of up to 1e-5 the head is within 3.5e-16 of 2(m-1)/(m+1) and head plus correction within 1e-19 |
| CudaLog.RoundingCancels | cuda_math/cuda_math.cpp:165-172 | any error made when k*ln2 + head is formed is subtracted again: the result does not depend on it |
| CudaLog.ConversionOfExponent | cuda_math/cuda_math.cpp:154-163 | fd47 is k for every exponent that the reduction gives |
| CudaLog.EvaluatePolynomial | cuda_math/cuda_math.cpp:132-146 | the step-by-step evaluation is the Horner scheme of the eight coefficients |
| CudaLog.Log | cuda_math/cuda_math.cpp:76-174 | end to end: for every positive finite double, reciprocal error up to 1e-5 and any error in fd49, the result is k*ln2 + y with x = m * 2^k and y within 1.5e-14 of ln m |
| CudaExpf.NearestEven | cuda_math/cuda_math.cpp:317 | the integer that the sum in [2^23, 2^24) rounds to is within 1/2 |
| CudaExpf.IntegerFloatValue | cuda_math/cuda_math.cpp:317 | the floats in [2^23, 2^24) are the integers there |
| CudaExpf.ShiftedEncoding | cuda_math/cuda_math.cpp:321-323 | for j in 0..252 the bits of 12582913 + j shifted left by 23 are the normal float 2^(j-126) |
| CudaExpf.ExpfIsExp2 | cuda_math/cuda_math.cpp:313-326 | for every real x, clamped or not, the result is exactly exp2 of x times the sum of the two constants |
| CudaExpf.RemainderIsSmall | cuda_math/cuda_math.cpp:315-320 | with the clamp inactive exp2f is called on at most 0.500007 in magnitude |
| CudaErf.Expm1Approximates | cuda_math/cuda_math.cpp:280-291 | on abs(r) <= 0.35 the polynomial for exp(r) - 1 is within 6e-14 of every partial sum of order 12 or more |
| ErfPolynomial.ErfPolynomialBetween | cuda_math/cuda_math.cpp:246-268 | on all of [0, 6] the polynomial P lies in [0.128, 5.37], although its terms reach 1e5 in size |
| ErfPolynomial.ErfPolynomialBetweenLines | cuda_math/cuda_math.cpp:246-268 | on all of [0, 6] it also lies between the lines -0.39 + 23/24 x and 0.1284 + 0.8816667 x |
| CudaErf.ExponentBetween | cuda_math/cuda_math.cpp:246-269 | the exponent fd2 + fd2*P(fd2) is at least fd2 and at most 38.22 over the whole range |
| CudaErf.RemainderWithin | cuda_math/cuda_math.cpp:274-279 | whatever the two float roundings do within their bounds, the integer n leaves a remainder of at most 0.35, and is not positive for a non-negative exponent |
| CudaErf.Compensated | cuda_math/cuda_math.cpp:269-271 | fd52 is exactly minus the error committed in fd50 |
| CudaErf.EvaluateErf | cuda_math/cuda_math.cpp:246-268 | the step-by-step evaluation is the Horner scheme of the 24 coefficients |
| CudaErf.EvaluateExp | cuda_math/cuda_math.cpp:280-288 | the step-by-step evaluation is the Horner scheme of the ten coefficients |
| CudaErf.SplitExponent | cuda_math/cuda_math.cpp:246-279 | the step-by-step code gives the split of the exponent, and in fd54 exactly the error committed in fd50 |
| CudaErf.Combine | cuda_math/cuda_math.cpp:280-297 | the step-by-step code gives 1 - 2^n (1+g), with fd54 added to the polynomial for exp(r) - 1 |
| CudaErf.Magnitude | cuda_math/cuda_math.cpp:244-298 | from the cut-off on fd86 is 1, and below it the code computes the closed form of which the next rows speak |
| CudaErf.MagnitudeApproximates | cuda_math/cuda_math.cpp:244-298 | for every fd2 below the cut-off and every error delta the magnitude is 1 - 2^n (1+g), where r + delta + n ln2 is exactly minus the exponent and g is within 6e-14 of exp(r) - 1 + delta |
| CudaErf.MagnitudeBetween | cuda_math/cuda_math.cpp:244-298 | for every non-negative fd2 the magnitude lies in [0, 1], as long as the error in fd50 is below a tenth of it and below 1/1000 |
| CudaErf.MagnitudeFromCut | cuda_math/cuda_math.cpp:298 | from the cut-off on the magnitude is 1 |
| CudaErf.MagnitudeMeetsOne | cuda_math/cuda_math.cpp:244-298 | from 5.9 up to the cut-off it lies between 1 - 2^-52 and 1, for every error in fd50 up to 1/1000 and every float rounding |
| CudaErf.MagnitudeAtOne | cuda_math/cuda_math.cpp:244-298 | at 1, with fd50 exact, it is 0.842700792949715 up to 1e-13, whatever the float roundings do within their bounds |
| CudaSign.Value32IsSignMagnitude | cuda_math/cuda_math.h:15-19 | flipping the top bit negates the value of every encoding |
| CudaSign.CopySignFlips | cuda_math/cuda_math.cpp:195-199 | exactly when the magnitude has a clear sign bit does the copy follow the sign of its first operand |
| CudaSign.CopySignIsBitwise | cuda_math/cuda_math.cpp:195-199 | on 32-bit words the copy is the bitwise or of the magnitude and the masked first operand |
| CudaSign.CopySignPutsSign | cuda_math/cuda_math.cpp:195-199 | on a magnitude with a clear sign bit it adds 2^31 exactly when the first operand has the bit |
| CudaSign.TanhfSmallIsOdd | cuda_math/cuda_math.cpp:181-187 | the polynomial branch is odd under every odd rounding |
| CudaSign.TanhfLargeIsNonNegative | cuda_math/cuda_math.cpp:189-194 | the magnitude before the sign copy is never negative, whatever symmetric monotone rounding is in use |
| CudaSign.TanhfIsOdd | cuda_math/cuda_math.cpp:177-202 | tanhf is odd for every encoding, across both branches |
| CudaTanhf.TanhfSmallIsTanh | cuda_math/cuda_math.cpp:181-187 | for abs(x) up to 0.6 and exact operations t = tanhf(x) satisfies t(E+1) = E-1 up to 9e-7, for E any partial sum of exp(2x) of order 13 or more, and t has the sign of x |
| CudaTanhf.TanhfLargeIsTanh | cuda_math/cuda_math.cpp:189-194 | from 0.6 on m(p+1) = p-1 for p = exp2(2.88539 abs(x)), and m is 1 from 9.010913848876953 on |
| CudaTanhf.TanhfValue | cuda_math/cuda_math.cpp:177-202 | which branch gives the result for which x, and with which sign |
| CudaSign.ErffIsOddIff | cuda_math/cuda_math.cpp:208-241 | erff is odd at x if and only if x is in the polynomial branch or the magnitude has a clear sign bit or is zero |
| CudaSign.ErffFactorIsPositive | cuda_math/cuda_math.cpp:215-227 | the second-branch polynomial, rounded after each step, is non-negative for every non-negative argument |
| CudaSign.ErffIsOdd | cuda_math/cuda_math.cpp:208-241 | so the condition always holds: erff is odd for every encoding, under every symmetric monotone rounding that leaves the multiples of 2^-12 up to 1 alone |
| CudaSign.ErffExactIsOdd | cuda_math/cuda_math.cpp:208-241 | in particular in exact arithmetic |
| CudaErff.ErffSmallIsErf | cuda_math/cuda_math.cpp:208-230 | below the threshold and for exact operations erff(x) is within 4.5e-8 of every partial sum of order 13 or more of the power series of erf |
| CudaErff.ErffLargeValue | cuda_math/cuda_math.cpp:208-241 | from the threshold on erff(x) is 1 - exp2 of minus a degree-7 polynomial in abs(x), with the sign of x |
| CudaErff.BranchesMeet | cuda_math/cuda_math.cpp:208-236 | at the threshold the second branch is within 6e-8 of the series of erf, as the first one is up to there, for exp2 good to 1e-9 |
| CudaErff.ErfAtOneIsErf | cuda_math/cuda_math.cpp:244-298 | the magnitude that the double-precision erf computes at 1 is within 6e-9 of the same series |
| CudaSign.ErfAgreesUpToSign | cuda_math/cuda_math.cpp:243-307 | the results for x and -x agree on all 63 bits below the sign, and differ in the sign exactly when the magnitude has a clear sign bit |
| CudaSign.ErfCarriesSign | cuda_math/cuda_math.cpp:299-306 | the result has the sign bit of x in front of the other 63 bits of a magnitude whose sign bit is clear, hence its value with the sign of x |
| CudaSign.ErfIsOdd | cuda_math/cuda_math.cpp:243-307 | erf is odd for every encoding: x and -x give the same double but for a flipped sign bit |
| CudaSign.ErfFromCut | cuda_math/cuda_math.cpp:298-306 | from the cut-off on erf is 1 with the sign of x |
| LogFile.FindNewline | ConsoleTest/example_boost/Mylog.cpp:89 | the first newline, if there is one |
| LogFile.ShrunkText | ConsoleTest/example_boost/Mylog.cpp:78-105 | shrinking a non-empty text finds a newline and leaves whole last lines, at most 2046 bytes |
| LogFile.CheckedText | ConsoleTest/example_boost/Mylog.cpp:56-73 | unless an empty file meets a negative limit, the size check leaves last lines of at most max(1.2*limit, 2046) bytes |
| LogFile.ShrinkKeepsTheMost | ConsoleTest/example_boost/Mylog.cpp:78-105 | what is left begins right behind the first newline of the last 2047 bytes: no longer run of whole last lines fits in 2046 bytes |
| LogFile.CheckedIffTooLong | ConsoleTest/example_boost/Mylog.cpp:56-73 | a file within 1.2 times the limit is left alone, a longer one gets shorter |
| LogFile.CheckSizeFailsIff | ConsoleTest/example_boost/Mylog.cpp:56-105 | the unchecked strchr result is null exactly for an empty file under a negative limit |
| LogFile.AppendedText | ConsoleTest/example_boost/Mylog.cpp:134-143 | appending a line keeps the file the last lines of all that was appended |
| LogFile.Store.constructor | ConsoleTest/example_boost/Mylog.cpp:12-13 | initial limit 204800000 |
| LogFile.Store.SetMaxFileSize | ConsoleTest/example_boost/Mylog.cpp:46-50 | sets any limit and keeps the file |
| LogFile.Store.Append | ConsoleTest/example_boost/Mylog.cpp:134-143 | the file and the history grow by the line; the suffix invariant is kept |
| LogFile.Store.ShrinkLogFile | ConsoleTest/example_boost/Mylog.cpp:78-105 | the file becomes what follows the first newline of its last 2047 bytes |
| LogFile.Store.CheckSize | ConsoleTest/example_boost/Mylog.cpp:56-73 | records the old size, shrinks only above 1.2*limit, keeps the suffix invariant and the size bound |
| Logger.InvKept | ConsoleTest/example_boost/Mylog.cpp:107-220 | every step of every thread keeps mutual exclusion, conservation, no lost wake-up and the file invariant |
| Logger.Reachable | ConsoleTest/example_boost/Mylog.cpp:28-220 | the invariant holds after every run from the initial state |
| Logger.EntriesConserved | ConsoleTest/example_boost/Mylog.cpp:107-213 | in every reachable state the written entries followed by the unwritten ones are the accepted entries in lock order; at exit the unwritten ones are the queue |
| Logger.NoEntryStranded | ConsoleTest/example_boost/Mylog.cpp:117-187 | while the consumer waits beside a non-empty queue some thread has yet to call notify_one, and has unlocked if the mutex is free |
| Logger.FileHoldsLastLines | ConsoleTest/example_boost/Mylog.cpp:56-215 | in every reachable state the file is the last whole lines of everything written, and a size check neither fails nor leaves more than max(1.2*limit, 2046) bytes |
| Logger.MutualExclusion | ConsoleTest/example_boost/Mylog.cpp:118-204 | at most one thread is between lock and unlock |
| Logger.ShutdownCanBeMissedIff | ConsoleTest/example_boost/Mylog.cpp:28-186 | after notify_all the consumer can still come to wait if and only if notify_all ran while it stood between its test and its wait |
| Logger.MissedShutdownBlocks | ConsoleTest/example_boost/Mylog.cpp:32-185 | a consumer that missed the notification stays blocked under every step but a spurious wake-up or another notify_one |
| Logger.MissedShutdownExample | ConsoleTest/example_boost/Mylog.cpp:28-186 | such a state is reachable |
| LoggerRuns.FileShowsLastRecords | ConsoleTest/example_boost/Mylog.cpp:56-215 | after every run, with single-line stamps and texts, the file split at its newlines is one line for each of the last records: time stamp, two spaces, text |
| LoggerRuns.FileShowsAcceptedEntries | ConsoleTest/example_boost/Mylog.cpp:107-215 | after every run that neither shrinks the file nor writes to it directly, line i of the file ends in the i-th string queued, and the strings behind the last line are the unwritten ones |
| LoggerRuns.UndisturbedTextIsQueued | ConsoleTest/example_boost/Mylog.cpp:110-119 | a text formatted into the shared buffer is the string queued next, if no other call formats before that |
| LoggerRuns.WrittenWithin | ConsoleTest/example_boost/Mylog.cpp:176-218 | while the destructor has not started, k waiting entries are written within 8k steps of the consumer, whatever else happens in between |
| LoggerRuns.AcceptedEntriesGetWritten | ConsoleTest/example_boost/Mylog.cpp:107-218 | so all that is accepted after any run gets written, in order, by every continuation that gives the consumer enough steps |
| LoggerRuns.SomebodyMoves | ConsoleTest/example_boost/Mylog.cpp:107-218 | after any run with something to write and no shutdown, the consumer can move, or else a producer that holds the mutex or has yet to notify can |
| LoggerRuns.NotificationWakes | ConsoleTest/example_boost/Mylog.cpp:123 | notify_one ends the consumer's wait |
| LoggerRuns.FirstMessageReachesFile | ConsoleTest/example_boost/Mylog.cpp:107-213 | for every text and time stamp some run of one log call and the consumer leaves exactly the stamp, two spaces, the text and a newline in the file |
| Framing.ConferenceMsgGet | ConsoleTest/example_boost/DataProcess.cpp:85-111 | the loop queues the messages, and returns the length, of the recursive split, and ends |
| Framing.ConferenceConserves | ConsoleTest/example_boost/DataProcess.cpp:106-108 | the messages concatenate to exactly the handled prefix, and none is empty |
| Framing.ConferenceFirstMessage | ConsoleTest/example_boost/DataProcess.cpp:91-109 | in bytes: with more than 22 bytes that declare a positive length which is there, that many bytes are the first message, otherwise there is none |
| Framing.ConferenceLeftover | ConsoleTest/example_boost/DataProcess.cpp:91-104 | what is left cannot be split further and is shorter than 65535 bytes |
| Framing.ConferenceChunks | ConsoleTest/example_boost/DataProcess.cpp:85-111 | for all a and b, a + b splits into the messages of a, then those of a's tail + b |
| Framing.ConferenceDecomposition | ConsoleTest/example_boost/DataProcess.cpp:91-109 | every buffer is frames that each declare their own positive length, then a tail that is too short, or longer than a header and of declared length 0 |
| Framing.SplitIntoUnique | ConsoleTest/example_boost/DataProcess.cpp:91-109 | a buffer has only one decomposition into frames of declared length and a tail that cannot be split |
| Framing.ConferenceLoopEndsIff | ConsoleTest/example_boost/DataProcess.cpp:91-109 | the loop ends if and only if the buffer is not frames of positive declared length followed by more than 22 bytes that declare 0 |
| Framing.ZeroBytesNeverEnd | ConsoleTest/example_boost/DataProcess.cpp:91-109 | 23 zero bytes are such a buffer |
| Framing.DeviceMsgGet | ConsoleTest/example_boost/DataProcess.cpp:56-83 | the loop queues and returns what the recursive split gives, and throws exactly when that does |
| Framing.DeviceFirstFrame | ConsoleTest/example_boost/DataProcess.cpp:62-79 | in bytes: the first frame queued is the 24-byte header, the declared number of bytes and a 4-byte end tag |
| Framing.DeviceSplitsFrames | ConsoleTest/example_boost/DataProcess.cpp:62-81 | any list of whole frames, followed by anything, is queued frame by frame, then the rest is split |
| Framing.DeviceDecomposition | ConsoleTest/example_boost/DataProcess.cpp:62-81 | every buffer is whole frames and then a tail that is too short or has its end tag cut |
| Framing.DeviceOutcome | ConsoleTest/example_boost/DataProcess.cpp:56-83 | the frames and their total length are returned, unless the tail ends inside an end tag: then, and only then, substr throws, with the cut frame queued |
| Framing.CutFrameThrows | ConsoleTest/example_boost/DataProcess.cpp:74-79 | a whole frame cut 1 to 4 bytes short throws, except a bare header |
| Framing.DeviceChunks | ConsoleTest/example_boost/DataProcess.cpp:56-83 | after a part that does not throw, the rest goes on from its tail |
| Connection.AsyncConnection.OnRead | ConsoleTest/example_boost/testAsio.cpp:184-200 | the messages processed, followed by the bytes kept, are the pending bytes and the chunk; every message is a frame of its declared length, what is kept cannot be split, and the buffer never fills up |
| Connection.AsyncConnection.DiscardFront | ConsoleTest/example_boost/testAsio.cpp:190-194 | memmove drops exactly the handled bytes |
| Connection.ReadInTwo | ConsoleTest/example_boost/DataProcess.cpp:85-111 | one read equals two reads of its parts |
| Connection.ReceivedIsRead | ConsoleTest/example_boost/DataProcess.cpp:85-111 | one read loses nothing, delivers frames that declare their own length, and keeps what cannot be split |
| Connection.ReadIsDetermined | ConsoleTest/example_boost/DataProcess.cpp:85-111 | these three properties leave only one possibility for the messages and the rest |
| Connection.ReadsAreOneRead | ConsoleTest/example_boost/DataProcess.cpp:85-111 | any number of reads, one after the other, have them for the whole stream: all messages followed by the last rest are the first rest followed by all chunks |
| Connection.ReadsDoNotMatter | ConsoleTest/example_boost/DataProcess.cpp:85-111 | however the stream is cut into reads, messages and leftover are those of the whole stream |
| ConferenceWriter.Swap16 | ConsoleTest/example_boost/DataProcess.cpp:119-120 | ntohs in place swaps two bytes and no others |
| ConferenceWriter.SwapIdAndLen | ConsoleTest/example_boost/DataProcess.cpp:129-132 | the eight id bytes are reversed; the 32-bit len loses its upper half |
| ConferenceWriter.HeadToHostOrder | ConsoleTest/example_boost/DataProcess.cpp:125-132 | all header fields of the request are swapped in place, the rest is untouched |
| ConferenceWriter.HostFieldsHaveNetworkValues | ConsoleTest/example_boost/DataProcess.cpp:117-132 | read on a little-endian host the swapped fields have the values sent in network order, version and text are untouched, and two bytes of len are lost |
| ConferenceWriter.LayOutHeader | ConsoleTest/example_boost/DataProcess.cpp:135-148 | every header byte of the response before lengths and text go in |
| ConferenceWriter.PutLengthsAndText | ConsoleTest/example_boost/DataProcess.cpp:191-194 | both lengths and the text go in, and no other header byte changes |
| ConferenceWriter.LayOut | ConsoleTest/example_boost/DataProcess.cpp:135-195 | every byte of the frame sent, with the text laid over total and index |
| ConferenceWriter.MsgProcess | ConsoleTest/example_boost/DataProcess.cpp:114-198 | what happens to the request in place and which frame, if any, is sent, for every tag and command |
| ConferenceWriter.QueuedAreProcessableIff | ConsoleTest/example_boost/DataProcess.cpp:103-120 | every message queued from a buffer is long enough for msgProcess if and only if no frame in it declares less than 4 bytes, or less than 26 with the conference tag |
| ConferenceWriter.ShortFrameIsQueued | ConsoleTest/example_boost/DataProcess.cpp:103-120 | a 23-byte buffer with the conference tag that declares 4 has a 4-byte message queued, which is not long enough |
| ConferenceWriter.HostOrderTwice | ConsoleTest/example_boost/DataProcess.cpp:119-132 | the swaps undo themselves except for the two cleared bytes of len |
| ConferenceWriter.ReplyEchoesRequest | ConsoleTest/example_boost/DataProcess.cpp:140-194 | a response carries the tag, command and id of its request, version 1.2, its own text, and the lengths of frame and text in network order |
| ConferenceWriter.OneFrameRoundTripIff | ConsoleTest/example_boost/DataProcess.cpp:85-195 | a frame is split back whole if and only if its length is at most 65535; at 65536 the receiver never ends |
| ConferenceWriter.RoundTrip | ConsoleTest/example_boost/DataProcess.cpp:85-195 | any list of response frames in a row is split into exactly those frames, consuming everything |
| SoapRuntime.Reader.BeginIn | ConsoleTest/testWS/soapC.cpp:2754-2763 | succeeds exactly on a next child with the tag; NoTag at the end, TagMismatch otherwise |
| SoapRuntime.Reader.InString | ConsoleTest/testWS/soapC.cpp:2764 | reads exactly a next child with the tag and string content, and only then moves on |
| SoapRuntime.Reader.IgnoreElement | ConsoleTest/testWS/soapC.cpp:482-508 | skips exactly the children that are neither mustUnderstand nor, in strict mode or with a reserved prefix, refused |
| SoapParsers.RepeatedField.PushSlot | ConsoleTest/testWS/soapC.cpp:2755-2762 | opens a slot without touching the values; block count stays size plus one while pending |
| SoapParsers.RepeatedField.Fill | ConsoleTest/testWS/soapC.cpp:2764-2767 | the pending slot becomes the next value |
| SoapParsers.RepeatedField.TryRead | ConsoleTest/testWS/soapC.cpp:2754-2769 | appends the value of a readable child with the tag, else leaves values and position alone and reports why |
| SoapParsers.RepeatedField.Finish | ConsoleTest/testWS/soapC.cpp:2793-2802 | a slot left pending is dropped; the array is exactly the values read, null when there are none |
| SoapParsers.RepeatedField.Print | ConsoleTest/testWS/soapC.cpp:2716-2720 | one element for each value, in order |
| SoapParsers.DeleteBatchFile.Iteration | ConsoleTest/testWS/soapC.cpp:2753-2787 | one iteration reads, skips or refuses the next child as specified |
| SoapParsers.DeleteBatchFile.SoapIn | ConsoleTest/testWS/soapC.cpp:2748-2815 | succeeds exactly when no child stops the parse, else reports that child's error; both arrays hold the values of their tag in document order, whatever the interleaving and the unknown children |
| SoapParsers.DeleteBatchFile.SoapOut | ConsoleTest/testWS/soapC.cpp:2711-2727 | prints arg0 elements, then arg1 elements |
| SoapParsers.DeleteFiles.TryScalar | ConsoleTest/testWS/soapC.cpp:3560-3565 | reads arg0 only while the flag is up |
| SoapParsers.DeleteFiles.Iteration | ConsoleTest/testWS/soapC.cpp:3559-3583 | one iteration reads, skips or refuses the next child as specified |
| SoapParsers.DeleteFiles.SoapIn | ConsoleTest/testWS/soapC.cpp:3554-3601 | arg0 is the first readable arg0, later ones count as unknown children; arg1 holds its values in document order |
| SoapParsers.DeleteFiles.SoapOut | ConsoleTest/testWS/soapC.cpp:3520-3533 | prints arg0, then arg1 elements |
| SoapParsers.ErrorStands | ConsoleTest/testWS/soapC.cpp:2790-2791 | the first error is the error of the whole parse |
| SoapParsers.BatchSucceedsIff | ConsoleTest/testWS/soapC.cpp:2752-2792 | a parse succeeds if and only if no single child would stop it |
| SoapParsers.StrictSucceedsIff | ConsoleTest/testWS/soapC.cpp:2752-2792 | in strict mode exactly the sequences of readable arg0 and arg1 children parse |
| SoapParsers.LaxSucceedsIff | ConsoleTest/testWS/soapC.cpp:2752-2792 | in lax mode exactly those without a broken argument and without an unread child that is mustUnderstand or reserved |
| SoapParsers.FirstErrorSays | ConsoleTest/testWS/soapC.cpp:2752-2792 | the error reported is that of the first child that stops the parse: its own fault, mustUnderstand, or a tag mismatch |
| SoapParsers.InterleavingDoesNotMatter | ConsoleTest/testWS/soapC.cpp:2752-2792 | swapping neighbours of different tags changes no array, nor whether the parse succeeds |
| SoapParsers.UnknownChildrenDoNotMatter | ConsoleTest/testWS/soapC.cpp:2786-2787 | a skipped child anywhere changes no array, nor whether the parse succeeds |
| SoapParsers.LaxParseSucceeds | ConsoleTest/testWS/soapC.cpp:2752-2792 | in lax mode every sequence without reserved, mustUnderstand or broken children parses |
| SoapParsers.BatchRoundTrip | ConsoleTest/testWS/soapC.cpp:2711-2815 | parsing the printed form of any two lists of strings returns them, in lax and strict mode |
| SoapParsers.FilesRoundTrip | ConsoleTest/testWS/soapC.cpp:3520-3601 | the same for a string and a list of strings |
| SoapParsers.PrintAndParseBatch | ConsoleTest/testWS/soapC.cpp:2711-2815 | on the code itself: printing an object and parsing the result succeeds and gives a new object with the same two arrays |
| SoapParsers.PrintAndParseFiles | ConsoleTest/testWS/soapC.cpp:3520-3601 | the same for deleteFiles |
| CpuUsage.CpuInfo.UpdateCore | Monitor_win/Monitor_win/CpuInfo.cpp:124-145 | one core's counters and, if wanted, its rate; the other cores are untouched |
| CpuUsage.CpuInfo.UpdateCores | Monitor_win/Monitor_win/CpuInfo.cpp:122-150 | all cores are updated and the totals are the sums modulo 2^64 |
| CpuUsage.CpuInfo.GetCpuTime | Monitor_win/Monitor_win/CpuInfo.cpp:100-170 | new counters, totals, rates and usage after one sample |
| CpuUsage.CpuInfo.GetCpuUsage | Monitor_win/Monitor_win/CpuInfo.cpp:172-187 | for every earlier history of the statics, and for steady counters with differences dk, du, di between the two samples: rate times (dk + du) is 100 (dk - di + du), and the rate is 0 when dk + du is; the same for the usage with the sums over all cores |
| CpuUsage.TwoSamples | Monitor_win/Monitor_win/DevInfo.h:29 | after two updates the deltas do not depend on what the counters held before |
| CpuUsage.TotalIsSumOfCores | Monitor_win/Monitor_win/CpuInfo.cpp:146-154 | the wrapped difference of wrapped sums is the wrapped sum of wrapped differences |
| CpuUsage.RateIsPercentageIff | Monitor_win/Monitor_win/CpuInfo.cpp:136-142 | for any deltas the rate is in [0,100] if and only if busy plus idle time stays within 2^64 |
| CpuUsage.RatesFromCounters | Monitor_win/Monitor_win/CpuInfo.cpp:122-163 | that equation for the rates of all cores and for the total |
| CpuUsage.IdleOvertakesKernel | Monitor_win/Monitor_win/CpuInfo.cpp:129-140 | two samples for which the rate is above 100: idle grows faster than kernel |
| CpuUsage.MeanBetween | Monitor_win/Monitor_win/CpuInfo.cpp:158-163 | the share of the summed times is the weighted mean of the shares and lies between the smallest and the largest |
| CpuUsage.UsageIsWeightedMean | Monitor_win/Monitor_win/CpuInfo.cpp:122-163 | for steady counters every rate is in [0,100], and the total usage is the time-weighted mean of the core rates, between the smallest and the largest |
| Handshake.OneToken | ConsoleTest/example_boost/InterProcess.cpp:152-176 | in every reachable state the two counts and the two critical sections hold one token; no release passes its maximum |
| Handshake.StrictAlternation | ConsoleTest/example_boost/InterProcess.cpp:152-176 | every run prints strictly alternating lines, the thread's first |
| Handshake.NoDeadlock | ConsoleTest/example_boost/InterProcess.cpp:157-172 | in every reachable state one of the two can move |
| Handshake.FairRunsKeepPrinting | ConsoleTest/example_boost/InterProcess.cpp:152-176 | after any run, n rounds that schedule both parties print at least n/4 further lines |

## Left out

- IEEE rounding of each multiply and add in `log`, `logf`, `expf` and `erf`, and claims in units in the last place: reals and the error terms named above stand for them.
- `CudaTanhf.TanhfSmallIsTanh`: exact operations; the effect of rounding on the accuracy is not stated, only that on the symmetry. The same holds for `CudaErff.ErffSmallIsErf`, `CudaErff.ErffLargeValue` and `CudaErff.BranchesMeet`.
- `CudaErf.MagnitudeAtOne`: fd50 is taken as exact there.
- `CudaLogf.Logf`: positive normal inputs only, for the reason given above; infinities, NaN and zero end in branches that are only selected, not computed.
- `CudaLogReduction.TimesTwoTo54`: the product for a negative argument is only promised to be negative.
- `CudaLog.Log`: the value returned for zeros, negatives, infinities and NaN is not modelled, only that exactly those take that branch; the product with 2^54 is taken as exact.
- `CudaSign.ErfIsOdd`: over the reals, -0.0 and 0.0 start the chain from the same value; the signs of intermediate zeros are not modelled.
- `CudaErf.MagnitudeApproximates`: how close fd2 + fd2*P(fd2) is to -ln(1 - erf(fd2)) is stated only at 1 and near the cut-off, since it is a fitted polynomial.
- `CudaSign.ErffIsOdd`: signed zeros and results that are not finite are not modelled.
- `cuda_math::tanh`, which returns its argument.
- `Logger.FileHoldsLastLines`: appends, the consumer's line under its lock, and size checks are atomic steps; the mixing of bytes of two simultaneous writers is not modelled.
- `LogFile.Store.CheckSize`: not called in the one case in which the code would step off a null pointer; `1.2*max_filesize` is a real product.
- `LoggerRuns.FileShowsLastRecords`: a text with newlines of its own makes several lines and is not read back.
- `LoggerRuns.AcceptedEntriesGetWritten`: entries still queued when the destructor sets the flag may stay unwritten, as in the source.
- `Logger.Reachable`: limits set during a run are 0 or more.
- Time stamps (parameters), failures to open or write the log file, `logException` after a short write, `setLogFile`, and truncation of log texts at 65534 characters.
- `ConferenceWriter.MsgProcess`: a message must hold the 4 bytes of Overload and, with the conference tag, all 26 header bytes: on shorter ones, which `msgGet` can queue, the code swaps bytes past the end of the string, and what it hits there is not modelled. A response must fit the buffer, and both hosts are little-endian; the response texts are a parameter.
- The device-family `msgProcess` writers: their length field counts the whole message and does not match `BaseProcess::msgGet`.
- `Framing.ConferenceMsgGet`: called only on buffers on which its loop ends; `Framing.ConferenceLoopEndsIff` says which those are.
- `Connection.AsyncConnection.OnRead`: read errors, closing and the socket itself are left out; a chunk fits the space left, as `async_read_some` is told.
- Processor dispatch, sockets and the server classes.
- `SoapParsers.DeleteFiles.SoapOut`: a null arg0 is not printed here, because what `soap_out_string` writes for it is up to stdsoap2, which is not part of this model.
- `SoapRuntime.Reader.IgnoreElement`: no fignore handler, outside a header, no children with an id, and the content of a skipped child is well-formed.
- `SoapParsers.DeleteBatchFile.SoapIn`: the href branch, id tables, nil elements, allocation failures and the element's own begin and end tags.
- `ns1__getBucketNamesResponse`: the same loop with a single list; the other generated types repeat these patterns.
- `CpuUsage.CpuInfo.GetCpuUsage`: core names and printing are left out, and rates are reals where the source stores a float.
- `Handshake.OneToken`: waits and releases never fail for reasons other than the counts.
- Windows queries, inline assembly, disk, memory and network reporting, shared-memory demonstrations.
