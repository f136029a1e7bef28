# noisemachine in Dafny

A model of the C noise machine: a single `main` that checks its command line, derives the
sample count `totalsamples = srate * dur`, fills a buffer of white, pink (1/f) or red (random
walk) noise, and divides every sample by the peak absolute value so that the clip written to the
sound file does not clip (the red branch as written misses this; see Findings).

The model keeps the program's buffers as Dafny arrays and its loops as `for` loops that fill
them in place:

- `Validation` — the checks `main` makes, in its order (argument count, noise type, duration,
  portsf initialisation, sample rate, output format), and the sample count.
- `Signal` — the sequence functions the loops are proved against: sums, the running sum of a
  random walk, absolute values, the peak, peak normalisation, mean and re-centring.
- `Spectrum` — the interleaved complex buffer (`REAL(z,i)` at `2i`, `IMAG(z,i)` at `2i+1`), the
  spectrum midpoint `points` and the divisor of each frequency bin.
- `Generators` — one method per generator loop, each filling `samples_dbl` and `samples_abs`;
  the pink generator is split into its steps (draws, packing, forward transform, bin scaling,
  inverse transform, real parts, re-centring).
- `NoiseMachine` — peak normalisation into the output buffer, `main` as a whole (`Run`), the
  end-to-end bound, and the lemmas behind the findings below.

What the program gets from libraries becomes parameters: the Gaussian draws are a function
`draw: nat -> real` (draw `i` is the `i`-th value the generator returns); the forward and
inverse FFTs are functions on the packed buffer that keep its length; `sqrt` is a function that
is positive from 1 on; the pink generator's standard deviation is a function `sd`, required to
be nonzero only on the one buffer it is applied to, the shaped pink buffer.
Whether `psf_init` succeeds and whether the outfile's extension names a known format are
boolean inputs of validation. `double` arithmetic is exact `real` arithmetic.

The usage text says the duration is at most 10 seconds; the check in the code accepts up to 30,
and the model follows the code. The comment at noisemachine.c:224-225 says every sample is
divided by the maximum so that nothing clips, so the peak should cover every sample; and a
request with no samples gets zero-size buffers (line 115), so nothing may be stored in them.
The code stores a first red sample unconditionally (line 137) and takes the peak over `samples_abs`, whose slot 0 the red branch
never writes (lines 138-142). `Generators.RedNoiseAsWritten` models the red loop as written and
both defects are recorded as findings; `Run` and the end-to-end lemmas use the corrected red
generator `Generators.RedNoise`.

## Model

| member | source | states |
|---|---|---|
| `Validation.Validate` | noisemachine.c:50-107 | succeeds exactly when argc is 5, the type is in [0,2], the duration in [0,30], portsf initialised, the sample rate is positive and the format is known; otherwise the first failing check in source order names the error; on success the request carries the colour the type selects, the duration and the rate |
| `Validation.ColourOf` | noisemachine.c:124-146 | the type selects white exactly when it is 0 and red exactly when it is 2; any other value reaching the dispatch (that is, 1) selects pink |
| `Validation.TotalSamples` | noisemachine.c:112 | when `srate * dur` does not overflow a C `int`, the sample count is a non-negative `int` and exactly `dur` whole seconds of frames (divisible by the rate, quotient `dur`) |
| `Validation.Scenarios` | noisemachine.c:50-112 | a 2 s red request at 44100 Hz is valid with 88200 samples, type 3 is refused as an invalid type, a 0 s request is valid with no samples, a 1 s request at 100000000 Hz is valid with 100000000 samples |
| `Generators.WhiteNoise` | noisemachine.c:124-132 | every sample is its draw and every absolute-value slot holds the absolute value of its sample |
| `Generators.RedNoiseAsWritten` | noisemachine.c:134-144 | needs at least one sample; the samples follow the walk recurrence and are the running sums of the increments; the absolute-value slots from 1 on are recorded and slot 0 keeps its old contents |
| `Generators.RedNoise` | noisemachine.c:134-144 | corrected red branch: for any length, the samples follow the walk recurrence, equal the running sums of the increments, and every absolute-value slot including 0 is recorded |
| `Generators.RedAbsAsWritten` | noisemachine.c:138-142 | the absolute-value buffer the red loop leaves: slot 0 the stale value, every later slot the absolute value of its sample |
| `Signal.RunningSumIsWalk` | noisemachine.c:137-142 | a sequence satisfies "first sample is the first increment, each later sample is its predecessor plus the next increment" if and only if it is the sequence of prefix sums of the increments |
| `Signal.RecurrenceGivesSum` | noisemachine.c:141 | under the walk recurrence, sample `i` is the sum of increments `0..i` |
| `Generators.FillDraws` | noisemachine.c:149-152 | the pink buffer first holds exactly the draws |
| `Spectrum.Slot` | noisemachine.c:28-29 | `REAL(z,i)` is slot `2i` and `IMAG(z,i)` slot `2i+1`; element and part are recovered from the slot, so distinct pairs never share one |
| `Spectrum.SlotsFill` | noisemachine.c:28-29 | the parts of `n` complex elements lie in `[0, 2n)` and every slot there belongs to one of them |
| `Spectrum.Packed` | noisemachine.c:160-164 | the packed buffer has twice the length, each real slot holds its sample and each imaginary slot 0 |
| `Generators.PackSamples` | noisemachine.c:160-164 | the packing loop leaves `fftdata` equal to the packed samples |
| `Spectrum.RealParts` | noisemachine.c:208-211 | reading back a packed buffer gives half as many values, each the value at its element's real slot `REAL(z,i)`; the round trip is `Spectrum.RealPartsOfPacked` |
| `Spectrum.RealPartsOfPacked` | noisemachine.c:208-211 | packing a real sequence and reading back the real parts returns the original sequence |
| `Generators.Transform` | noisemachine.c:172 | an in-place transform (the forward one here, the inverse at line 201) replaces the packed buffer by the transform of its old contents |
| `Spectrum.Points` | noisemachine.c:174-182 | `points` is the ceiling of `N/2`: at most `N`, at least 1 for a non-empty spectrum, 0 for an empty one |
| `Spectrum.Divisor` | noisemachine.c:186-198 | the divisor of every bin lies in `[1, points]`, so no division is by zero |
| `Spectrum.DivisorMirrored` | noisemachine.c:186-198 | bin `i` and bin `N-1-i` get the same divisor |
| `Spectrum.ScaledBins` | noisemachine.c:186-198 | both parts of bin `i` are divided by the square root of the bin's divisor, and nothing else changes length |
| `Generators.ScaleBins` | noisemachine.c:174-198 | the two loops leave the buffer equal to the shaped spectrum of its old contents and visit every bin of `[0,N)` exactly once |
| `Generators.UnpackReal` | noisemachine.c:208-211 | the sample buffer receives the real parts of the transformed buffer |
| `Generators.Recentre` | noisemachine.c:217-221 | each sample becomes `(x - mean) / std` of its old value and its absolute value is recorded beside it |
| `Signal.Mean` | noisemachine.c:214 | `pink_mean` times the number of samples is their sum (0 for an empty buffer) |
| `Signal.Recentred` | noisemachine.c:219 | each re-centred value, multiplied back by the deviation and shifted back by the mean, gives its sample; its zero sum is `Signal.RecentredSumsToZero` |
| `Signal.SumRecentred` | noisemachine.c:217-221 | the re-centred values sum to `(sum - N * mean) / std` |
| `Signal.RecentredSumsToZero` | noisemachine.c:214-221 | re-centred by the buffer's own mean and any nonzero deviation, the values sum to zero |
| `Generators.PinkShaped` | noisemachine.c:160-211 | defines the pink buffer before re-centring (draws packed, transformed forward, bins scaled, transformed back, real parts kept) and states it has one value per draw |
| `Generators.PinkBuffer` | noisemachine.c:146-221 | defines the pink buffer as the shaped buffer re-centred by its own mean and deviation, one value per draw; its zero sum is `Generators.PinkSumsToZero` |
| `Generators.PinkSumsToZero` | noisemachine.c:214-221 | the final pink buffer sums to zero |
| `Generators.PinkNoise` | noisemachine.c:146-222 | the pink branch leaves the buffer equal to the draws packed, transformed, shaped, transformed back, unpacked and re-centred, with the absolute values beside it |
| `Signal.Peak` | noisemachine.c:226 | the peak is at least every element and, for a non-empty buffer, equals one of them |
| `Signal.Normalized` | noisemachine.c:233 | each output sample times the peak gives its sample back, and where the peak is 0 the samples are left unchanged (a departure listed under Left out); the bound is `Signal.NormalizedBounded` |
| `Signal.NormalizedBounded` | noisemachine.c:226-234 | dividing by the peak of the absolute-value buffer keeps in `[-1, 1]` every sample whose absolute value the buffer records |
| `Signal.NormalizeUnitPeak` | noisemachine.c:231-234 | on a buffer whose peak absolute value is 1 normalisation changes nothing |
| `Signal.NormalizeIdempotent` | noisemachine.c:226-234 | after one normalisation the peak absolute value is 1 (or 0 for a silent buffer), so a second normalisation changes nothing |
| `NoiseMachine.PeakNormalize` | noisemachine.c:226-234 | the output buffer is fresh and holds every sample divided by the peak of the absolute-value buffer |
| `NoiseMachine.Generated` | noisemachine.c:124-222 | the three-way dispatch, with the corrected red branch: one raw sample per draw; white is the draws, red satisfies the walk recurrence, pink sums to zero |
| `NoiseMachine.Synthesized` | noisemachine.c:224-234 | with the corrected red branch: defines the output as the raw buffer divided by the peak absolute value of every sample, one sample per draw (the program's red peak misses slot 0); its bound is `NoiseMachine.SynthesizedInRange` |
| `NoiseMachine.SynthesizedInRange` | noisemachine.c:224-234 | with the corrected red branch, for every colour and every draw sequence the output has one sample per draw and each lies in `[-1, 1]` |
| `NoiseMachine.SynthesizedIsNormalized` | noisemachine.c:226-234 | with the corrected red branch, normalising the output again changes nothing |
| `NoiseMachine.Run` | noisemachine.c:31-234 | with the corrected red branch: a refused request exits with 1 and allocates no output buffer; an accepted one exits with 0 and a fresh output buffer equal to the normalised generator output over the first `srate * dur` draws |
| `NoiseMachine.RedStaleAbsClips` | noisemachine.c:138-142 | with increments -2 and 1.5 and a stale 0 in slot 0, the red branch as written gives peak 0.5 and a first output sample of -4 |
| `NoiseMachine.RedAsWrittenBoundFromOne` | noisemachine.c:138-142 | with the red buffer as written the `[-1, 1]` bound holds from index 1 on whatever the stale slot holds |
| `NoiseMachine.RedZeroDurationHasNoSample` | noisemachine.c:134-137 | a red request of duration 0 passes validation and its draw sequence is empty, so it does not meet the at-least-one-increment requirement of `Generators.RedNoiseAsWritten` that the unconditional store to sample 0 imposes |

## Findings

| source | as written | input that shows it | evidently intended | confidence | as-written member | corrected member |
|---|---|---|---|---|---|---|
| noisemachine.c:138-142 | the red loop starts at 1, so `samples_abs[0]` keeps uninitialised memory and the peak can miss the first sample | type 2, increments -2 and 1.5, `samples_abs[0]` holding 0: peak 0.5, first output sample -4, outside [-1, 1] | record `fabs(samples_dbl[0])` too, so every output sample is in [-1, 1] | not executed | `Generators.RedNoiseAsWritten`, `NoiseMachine.RedStaleAbsClips` | `Generators.RedNoise` |
| noisemachine.c:137 | `samples_dbl[0]` is stored before the loop without checking that there is a sample | type 2, duration 0: `totalsamples` is 0 and the store lands outside a zero-length allocation | store the first sample only when `totalsamples >= 1` | not executed | `Generators.RedNoiseAsWritten`, `NoiseMachine.RedZeroDurationHasNoSample` | `Generators.RedNoise` |

## Left out

- Random draws: `gsl_rng_*` and `gsl_ran_gaussian` are a foreign generator; the draws are an input function and nothing is said about their distribution, their deviation `sqrt(1/srate)` in the red branch, or statistics such as mean, variance growth and autocorrelation.
- FFTs: `gsl_fft_complex_forward`/`inverse` and their wavetable and workspace are foreign floating-point code; they are input functions that keep the buffer length, so the forward/inverse round trip of the transform is not modelled, nor is the failure of the wavetable and workspace allocation on a zero length (a valid 0 s pink request, for which `Run` gives exit code 0 and an empty buffer).
- `sqrt` is an input function positive from 1 on; IEEE rounding, NaN and infinities are not modelled (exact reals).
- `Generators.PinkNoise`: requires the standard deviation of the shaped buffer to be nonzero, because the source divides by whatever `gsl_stats_sd` returns; that function's `N-1` denominator and its degenerate `N <= 1` case are not modelled (the deviation is an input).
- `NoiseMachine.Run`: requires the same nonzero deviation for a pink request, and requires `srate * dur` to fit in a C `int` when validation succeeds, because the source computes that product in `int`, where overflow is undefined.
- `NoiseMachine.Run`: its red branch runs the corrected generator `Generators.RedNoise`, not the loop as written at noisemachine.c:137-142, so for a red request it does not state what the program as written outputs; with increments -2 and 1.5 the program as written gives a first output sample of -4 (`NoiseMachine.RedStaleAbsClips`).
- `NoiseMachine.Synthesized`: for red it divides by the peak of every sample's absolute value, as the corrected generator records them; the program divides by the peak of `samples_abs` as `RedAbsAsWritten` gives it, whose slot 0 is never written, and `RedStaleAbsClips` shows the outputs differ (-4 where this gives -1). Its raw red buffer is what the loop as written leaves too.
- `NoiseMachine.SynthesizedInRange`: proved for the corrected red branch; for the red branch as written the bound holds only from index 1 on (`NoiseMachine.RedAsWrittenBoundFromOne`) and fails at index 0 (`NoiseMachine.RedStaleAbsClips`).
- `NoiseMachine.SynthesizedIsNormalized`: proved for the corrected red branch; with the red branch as written the peak misses sample 0, so a second normalisation need not be the identity.
- `Signal.Peak`: on an empty buffer `gsl_stats_max` reads past its end; the model takes 0, which is never divided by because the division loop then does not run.
- `Signal.Normalized`: where the peak is 0 the source divides by zero (NaN or infinities in IEEE arithmetic); the model leaves the samples unchanged, which are all 0 when every absolute value is recorded.
- The `double` to `float` narrowing at noisemachine.c:233 (where the cast binds before the division) is not modelled; the output is real.
- portsf: `psf_init` and `psf_getFormatExt` are boolean inputs; `psf_sndCreate`, `psf_sndWriteFloatFrames`, `psf_sndClose` and `psf_finish` (file creation, the sample-by-sample write, its error messages, and the exit code after a write failure) are I/O and are not modelled.
- `atoi` parsing of the arguments, the `printf` messages and colour names, `malloc`/`free`, the stack array `fftdata` and the `goto exit` cleanup path are library calls and resource plumbing with nothing to state; the model allocates its arrays with `new`.
