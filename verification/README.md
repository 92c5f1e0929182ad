# fft.js: the radix-2 Cooley-Tukey engine, modelled in Dafny

This project models the transform engine of `js/fft.js`:

- `bitwise_reorder`, the bit-reversal permutation, built from 32-bit shifts and masks;
- `fft`, which pads the signal with zeros to a power of two or to a given N, reorders it, converts every sample to a complex value and runs the recursive in-place forward transform `internal_fft`;
- `ifft`, which rejects a missing N, pads, converts, runs the recursive in-place inverse transform `internal_ifft`, and reorders;
- `magnitude`.

The model keeps the source's imperative form:

- The JavaScript array `x` is the class `Buffers.Signal`, whose field `items` the methods reassign. A slot holds either a plain number (`Num`) or a complex value (`Cplx`).
- `push` is `Signal.Push`.
- The padding, conversion, reordering, butterfly and magnitude loops are `while` loops with their invariants.
- The two recursive functions are recursive methods over (`start`, `N`, `FN`). Each butterfly loop is its own method (`ForwardStage`, `InverseStage`), called where the source runs it: after the two recursive calls in `internal_fft`, before them in `internal_ifft`.

Each method is proved against a specification function:

- `BitReversal.BitReversed` (slot k receives slot Rev(k));
- `Transform.Dit` and `Transform.Dif` (the recursive combines, stage by stage as the loops apply them);
- `Buffers.Padded`.

The properties are then proved about those functions:

- bit reversal is a permutation, is an involution, and fixes both ends;
- padding appends zeros only, up to the least power of two;
- each recursive call writes only inside its range `[start, start + N)` and recurses `log2 N` levels deep;
- the twiddle exponent `currentPower * FN / (2 * step)` is an exact integer, equal to `currentPower * (FN / N)`, and below `FN / 2`;
- each butterfly computes `a + w·b`, `a − w·b` (forward) and `(a + b)/2`, `w·(a − b)/2` (inverse), and touches no other slot;
- with exact arithmetic and reciprocal twiddle factors, `ifft` after `fft` gives back the padded input.

Complex values are exact pairs of reals. The twiddle factor `Wn.clone().pow(e)` is a parameter `w(FN, e)`. The library's `magnitude()` is a parameter `modulus`.

The code validates no length. The model excludes the lengths on which the code does not terminate normally, by `requires` clauses (`Transform.FftCallable`, and the precondition of `Transform.Ifft`). "## Left out" says what the code does with each of them.

## Model

| member | source | states |
|---|---|---|
| PowersOfTwo.IsPow2Exactly | js/fft.js:85 | the padding loop's stopping test, read as `PowersOfTwo.IsPow2`, holds of n exactly when n = 2^k for some k |
| PowersOfTwo.Log2 | js/fft.js:3-5 | for a power of two n, the integer exponent k with 2^k = n. In `bitwise_reorder`, `bits` is this exponent, or, at N = 2^29 and N = 2^31, a double slightly above it (29.000000000000004, 31.000000000000004); `<<= count` passes the count through ToUint32, which truncates it to the same integer, so the shift is the one the model makes |
| PowersOfTwo.CeilPow2 | js/fft.js:85-86 | the length the padding loop stops at is a power of two not below the original length |
| PowersOfTwo.CeilPow2Least | js/fft.js:85-86 | that length is the least such power of two: below every power of two that holds the input |
| PowersOfTwo.CeilPow2OfPow2 | js/fft.js:85-86 | a buffer whose length is already a power of two gets no zeros |
| Buffers.Padded | js/fft.js:91-92 | the padded buffer has length N, starts with the original slots unchanged and continues with zeros |
| Buffers.Signal.Push | js/fft.js:86 | `x.push(v)` appends v and changes nothing else |
| Buffers.PadToLength | js/fft.js:91-92 | `while (x.length != N) x.push(0)` with N not below the length leaves x padded with zeros to exactly N |
| Buffers.PadToPowerOfTwo | js/fft.js:85-86 | the loop on a non-empty buffer leaves it padded with zeros to the least power of two not below its length |
| Buffers.ToComplex | js/fft.js:97 | `Complex.from(v)`: a number r becomes the complex value with real part r and imaginary part 0, and a complex value stays as it is |
| Buffers.ConvertToComplex | js/fft.js:96-97 | every slot becomes `Complex.from` of what it held (a number r becomes r + 0i), in place |
| BitReversal.ShiftLeft | js/fft.js:17 | `x << k` on the 32-bit representation: the result is below 2^32, and after a shift of at least one bit 0 is clear, so the `\|` of one bit that follows is an addition |
| BitReversal.ShiftedIsEven | js/fft.js:17-18 | a 32-bit shift by at least one leaves bit 0 clear |
| BitReversal.Rev | js/fft.js:13-23 | the reversed index of n on b bits lies in [0, 2^b) |
| BitReversal.RevBit | js/fft.js:13-23 | bit i of Rev(m, b) is bit b-1-i of m: the low b bits read backwards |
| BitReversal.RevInvolutive | js/fft.js:24-29 | reversing the bits of an index twice gives it back, so a pair (n, Rev(n)) is one exchange |
| BitReversal.RevEnds | js/fft.js:12 | 0 and N-1 are their own reverses, which is why the outer loop skips them |
| BitReversal.RevStep | js/fft.js:16-19 | reversing one more bit doubles the reversed value and adds the next bit of m |
| BitReversal.AccumulatedStep | js/fft.js:16-19 | one inner-loop turn (`nreversed <<= 1; nreversed \|= nforward & 1`) doubles the accumulated value and adds the next bit |
| BitReversal.ShiftStep | js/fft.js:17-18 | on the 32-bit representation, a shift by one followed by adding one bit (the `\|`, by ShiftLeft's bit-0 clause) is doubling plus that bit, modulo 2^32 |
| BitReversal.RevLeadingZeros | js/fft.js:22 | an index that fits in j bits, reversed on b bits, is its j-bit reverse shifted up by b - j |
| BitReversal.ShiftedSplits | js/fft.js:22-23 | the accumulated value shifted by the missed iterations is a multiple of N plus the reversed index |
| BitReversal.ShiftThenMask | js/fft.js:22-23 | a 32-bit left shift followed by `& (N-1)` keeps the same low bits as the exact product |
| BitReversal.CompensateAndMask | js/fft.js:22-23 | `nreversed <<= count; nreversed &= N-1` leave exactly the bit-reversed index |
| BitReversal.ReversedIndex | js/fft.js:13-23 | the inner loop and the two statements after it compute Rev(n, bits) below N; the count of missed iterations never goes negative (loop invariant) |
| BitReversal.Swap | js/fft.js:26-28 | the exchange through `temp`: slot n takes the value of slot Rev(n) and slot Rev(n) the old value of slot n, every other slot keeps its value, and the length is kept |
| BitReversal.SwapKeepsMultiset | js/fft.js:26-28 | exchanging two slots through `temp` keeps every value and its count |
| BitReversal.PartlyReorderedStart | js/fft.js:12 | before the outer loop handles n = 1, nothing has moved |
| BitReversal.PartnerStep | js/fft.js:24-29 | handling n moves only slots n and Rev(n), and only when n < Rev(n) |
| BitReversal.PartlyReorderedStep | js/fft.js:24-29 | one turn of the outer loop exchanges x[n] and x[Rev(n)] when n < Rev(n) and otherwise leaves the buffer as it was |
| BitReversal.PartlyReorderedDone | js/fft.js:12-30 | once every n in [1, N-1) is handled, slot k holds the original slot Rev(k) |
| BitReversal.BitReversedPermutation | js/fft.js:12-30 | the reordered buffer has the same values with the same counts as the input |
| BitReversal.BitReversedInvolution | js/fft.js:7-31 | applying the reordering twice restores the original buffer |
| BitReversal.BitReversedFixesEnds | js/fft.js:12 | x[0] and x[N-1] are never moved |
| BitReversal.LowerBitReversed | js/fft.js:95-97 | reordering before or after reading the complex values gives the same complex values |
| BitReversal.BitReversed | js/fft.js:7-31 | the buffer `bitwise_reorder` is meant to leave: slot k takes the value of slot Rev(k, log2 N), and the length is kept |
| BitReversal.BitwiseReorder | js/fft.js:7-31 | `bitwise_reorder(x)` leaves x bit-reversed, a permutation of the input of the same length |
| Transform.Exponent | js/fft.js:60-65 | the exponent that starts at 0 and grows by FN / N per butterfly is k * (FN / N) at butterfly k |
| Transform.TwiddleExponent | js/fft.js:71 | `currentPower * FN / (2 * step)` divides exactly and equals the exponent of butterfly `currentPower` |
| Transform.ExponentBelowHalf | js/fft.js:65-71 | every butterfly of an N-slot stage uses an exponent in [0, FN / 2) |
| Transform.ButterflyInverts | js/fft.js:136-142 | the inverse butterfly with the reciprocal factor undoes the forward one: (a + wb + a − wb)/2 = a and w'(a + wb − (a − wb))/2 = b |
| Transform.PartlyCombinedUntouched | js/fft.js:65-77 | slots the first m butterflies of a forward stage have not reached keep their values |
| Transform.PartlyCombinedReached | js/fft.js:65-77 | after m butterflies, pair (j, j + N/2) with j < m holds a + w·b and a − w·b |
| Transform.Combine | js/fft.js:65-77 | the range after the whole forward stage of `internal_fft` (all N/2 butterflies in order) keeps its length; CombineAt states each slot |
| Transform.CombineAt | js/fft.js:65-77 | the forward stage leaves x[j] + w·x[j + N/2] in slot j and x[j] − w·x[j + N/2] in slot j + N/2, with w the twiddle factor for exponent j·(FN/N) |
| Transform.PartlyInvertedUntouched | js/fft.js:131-143 | slots the first m butterflies of an inverse stage have not reached keep their values |
| Transform.PartlyInvertedReached | js/fft.js:131-143 | after m inverse butterflies, pair (j, j + N/2) with j < m holds (a + b)/2 and w·(a − b)/2 |
| Transform.InverseCombine | js/fft.js:131-143 | the range after the whole inverse stage of `internal_ifft` keeps its length; InverseCombineAt states each slot |
| Transform.InverseCombineAt | js/fft.js:131-143 | the inverse stage leaves (x[j] + x[j + N/2])/2 in slot j and w·(x[j] − x[j + N/2])/2 in slot j + N/2 |
| Transform.InverseCombineUndoesCombinePair | js/fft.js:131-143 | with reciprocal twiddle factors, the inverse stage restores pair (k, k + N/2) after the forward stage |
| Transform.InverseCombineUndoesCombineAt | js/fft.js:131-143 | ... and so restores every slot |
| Transform.InverseCombineUndoesCombine | js/fft.js:131-143 | the inverse stage undoes the forward stage on the whole range |
| Transform.Dit | js/fft.js:39-78 | the forward transform of a range: both halves transformed, then joined by the forward stage; the length is kept |
| Transform.Dif | js/fft.js:107-148 | the inverse transform of a range: the inverse stage, then both halves inverted; the length is kept |
| Transform.DifOfCombined | js/fft.js:145-147 | after the inverse stage, the inverse transform is the inverse transforms of the two halves side by side |
| Transform.DifOfCombine | js/fft.js:145-147 | inverting a forward stage over two transformed halves leaves the inverse transforms of the halves |
| Transform.DifUndoesDit | js/fft.js:107-148 | with reciprocal twiddle factors, the recursive inverse transform of the recursive forward transform of a range is the range |
| Transform.ButterflyAsComputed | js/fft.js:72-76 | `x2.multiply(w)`, then `x1.add(x2)` and `x2.negate().add(old_x1)`, compute a + w·b and a − w·b |
| Transform.HalfButterflyAsComputed | js/fft.js:136-142 | `x1.add(x2).multiply(oneHalf)` and `x2.negate().add(old_x1)` multiplied by `currentWn.multiply(oneHalf)` compute (a + b)/2 and w·(a − b)/2 |
| Transform.ForwardReads | js/fft.js:67-68 | before butterfly m, `x[i]` and `x[i + step]` still hold the stage inputs s[m] and s[m + N/2] |
| Transform.ForwardWrites | js/fft.js:72-76 | writing a + w·b and a − w·b into the pair extends the forward stage by one pair and changes no slot outside the range |
| Transform.ForwardStep | js/fft.js:67-76 | one turn of the forward loop reads the stage inputs at i and i + step, writes the butterfly outputs there, and changes no other slot |
| Transform.InverseReads | js/fft.js:133-134 | before inverse butterfly m, `x[i]` and `x[i + step]` still hold the stage inputs |
| Transform.InverseWrites | js/fft.js:136-142 | writing (a + b)/2 and w·(a − b)/2 into the pair extends the inverse stage by one pair and changes no slot outside the range |
| Transform.InverseStep | js/fft.js:133-142 | one turn of the inverse loop reads the stage inputs at i and i + step, writes the inverse butterfly outputs there, and changes no other slot |
| Transform.ForwardStage | js/fft.js:65-77 | the forward loop visits the N/2 pairs (i, i + N/2) of [start, start + N), leaves the forward stage there and writes nothing outside |
| Transform.InverseStage | js/fft.js:131-143 | the inverse loop leaves the inverse stage in [start, start + N) and writes nothing outside |
| Transform.InternalFft | js/fft.js:39-78 | `internal_fft(x, start, N, FN)` leaves the forward transform of its range there, writes only inside [start, start + N), recurses on the two halves first and stops at N = 1, log2 N levels deep |
| Transform.InternalIfft | js/fft.js:107-148 | `internal_ifft(x, start, N, FN)` leaves the inverse transform of its range there, writes only inside [start, start + N), runs its stage before recursing on the halves, log2 N levels deep |
| Transform.PaddedLengthValid | js/fft.js:80-93 | under the calling conditions, the padded length is a power of two, not below the input length, and below 2^32; when N is left out it is at most 2^28 |
| Transform.FftOf | js/fft.js:80-100 | the buffer `fft(x, N)` leaves: x padded with zeros, bit-reversed, made complex and transformed; its length is the padded length |
| Transform.IfftOf | js/fft.js:150-163 | the buffer `ifft(x, N)` leaves: x padded with zeros to N, made complex, inverse-transformed and bit-reversed; its length is N |
| Transform.Fft | js/fft.js:80-100 | `fft(x, N)` pads x with zeros (to N, or to the least power of two), reorders it, converts it and transforms it in place |
| Transform.Ifft | js/fft.js:150-163 | `ifft(x)` without N fails with MissingLength and leaves x unchanged; `ifft(x, N)` pads to N, converts, inverse-transforms in place and reorders |
| Transform.FftThenIfft | js/fft.js:150-163 | with exact arithmetic and reciprocal twiddle factors, `ifft(fft(x, N), N)` is x padded to N, each number r now r + 0i |
| Transform.Abs | js/fft.js:168 | `Math.abs` is non-negative and equals r or −r |
| Transform.Magnitude | js/fft.js:165-171 | `magnitude(x)` returns a new array of the same length whose element i is \|modulus(x[i])\| ≥ 0, and x is not changed |

## Left out

- Floating point: complex values are exact real pairs, so rounding is not modelled. `Transform.FftThenIfft` holds exactly here but only approximately in the source.
- The `Complex` library is not part of this model. `fromPolar`, `pow`, `multiply`, `add`, `negate` and `clone` are the algebraic operations on exact pairs. The twiddle factor `Wn.clone().pow(e)` is a parameter `w(FN, e)`, and `magnitude()` is a parameter `modulus`. Whether the two twiddle functions are reciprocal is the hypothesis `ReciprocalTwiddles`, not a fact proved from trigonometry.
- Object aliasing: the source mutates the complex objects `x1` and `x2` in place, and the model writes the new values back into the two slots. This assumes every slot holds its own object, as it does after `Complex.from` on numbers.
- `log2` on other than powers of two: `PowersOfTwo.Log2` is defined on powers of two only. The padding loop's test `log2(len) != floor(log2(len))` is modelled as "len is not a power of two" (`PowersOfTwo.IsPow2`).
- Buffers.PadToPowerOfTwo: requires at most 2^28 slots (`Buffers.MaxExactLength`). With a correctly rounded `Math.log`, `Math.log(n) / Math.log(2)` is a whole number exactly when n is a power of two for every n below 2^29 and at 2^30. It misreads only 2^29 (29.000000000000004) and 2^31 (31.000000000000004). A loop started from a length in (2^28, 2^29] passes through 2^29, so the source pads on to 2^30. One started in (2^30, 2^31] passes 2^31 and goes on past the array limit, where `push` throws RangeError. The cap at 2^28 keeps every length the loop passes through below 2^29. It also excludes starts in (2^29, 2^30], which the source pads correctly to 2^30.
- Transform.Fft: without N, requires 0 < length <= 2^28, through `Transform.FftCallable`. This is the cap of the `Buffers.PadToPowerOfTwo` line.
- Transform.Fft: requires a non-empty buffer when N is missing. On an empty one the loop test is false at once: log2(0) is −Infinity, which is its own floor, so no zero is pushed. `internal_fft` then recurses on N = 0 until the stack overflows.
- Transform.Fft: requires a given N to be a power of two not below the length. With N below the length the padding loop never ends, since `push` only lengthens x. With any other N, `internal_fft` recurses on the left half first (js/fft.js:54): the sizes halve to an odd number above 1, then to fractions that never equal 1 (js/fft.js:40), and the recursion goes on until the stack overflows. For N = 0 the recursion on N = 0 overflows the stack. No slot is read, since the stages after the calls are never reached.
- Transform.Ifft: requires N to be a power of two not below the length. With N below the length the padding loop never ends. With any other N, `internal_ifft` runs its stage before recursing (js/fft.js:131-147). The first range of odd size therefore has a fractional `step`, and `x[i + step]` reads `undefined`, which the model cannot follow into the `Complex` library. For N = 0 the recursion on N = 0 overflows the stack.
- Transform.Fft and Transform.Ifft: require a given N below 2^32. A JavaScript array holds at most 2^32 − 1 elements, so a longer padding makes `push` throw RangeError. The 32-bit index arithmetic of `bitwise_reorder` also relies on this bound.
- BitReversal.ShiftLeft: models `<<` on the unsigned 32-bit representation rather than JavaScript's signed one. The mask `& (N-1)` that follows, with N at most 2^31, gives both the same result.
- BitReversal.ReversedIndex: writes `nforward & 1` as `nforward % 2`, `nforward >>= 1` as `nforward / 2`, and `nreversed &= N-1` as `nreversed % N`. These are the same on non-negative values and N a power of two, but the model has no bitwise operators, and this identity is not proved. The `|` is an addition, which ShiftLeft's bit-0 clause justifies.
- Transform.Magnitude: requires every slot to hold a complex value. On a plain number `x[i].magnitude()` throws TypeError (js/fft.js:168); the model does not follow that error. The only caller passes the output of `fft`, which `Transform.Fft` proves all complex.
- Transform.InternalFft and Transform.InternalIfft: return the recursion depth as a ghost value, which the source does not compute.
- The `window.*` exports and `js/application.js` (page handling, plotting, the equation evaluator) are not part of this model: they are the page around the engine.
