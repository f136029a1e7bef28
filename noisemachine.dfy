/** The whole of `main`: validation, the sample count, the generator the noise type selects,
    and peak normalisation into the output buffer. Writing the output file is not modelled. */
module NoiseMachine {
  import opened Validation
  import opened Signal
  import opened Spectrum
  import opened Generators

  /** The raw buffer each generator leaves in `samples_dbl`: white is the draws, red the
      random walk over them (what both `RedNoise` and, for at least one sample,
      `RedNoiseAsWritten` leave), and pink sums to zero. */
  function Generated(colour: Colour, draws: seq<real>,
                     fwd: seq<real> -> seq<real>, inv: seq<real> -> seq<real>,
                     sqrt: real -> real, sd: seq<real> -> real): (r: seq<real>)
    requires LengthPreserving(fwd) && LengthPreserving(inv) && PositiveRoot(sqrt)
    requires colour == Pink ==> NonZeroDeviation(draws, fwd, inv, sqrt, sd)
    ensures |r| == |draws|
    ensures colour == White ==> r == draws
    ensures colour == Red ==> WalkRecurrence(draws, r)
    ensures colour == Pink ==> Sum(r) == 0.0
  {
    match colour
    case White => draws
    case Red =>
      RunningSumIsWalk(draws, RunningSum(draws));
      RunningSum(draws)
    case Pink =>
      PinkSumsToZero(draws, fwd, inv, sqrt, sd);
      PinkBuffer(draws, fwd, inv, sqrt, sd)
  }

  /** The output buffer `samples`: the raw buffer divided by its peak absolute value, taken
      over every sample. For red this is the corrected generator's peak: the program's red
      peak misses slot 0 (`RedAbsAsWritten`). */
  function Synthesized(colour: Colour, draws: seq<real>,
                       fwd: seq<real> -> seq<real>, inv: seq<real> -> seq<real>,
                       sqrt: real -> real, sd: seq<real> -> real): (r: seq<real>)
    requires LengthPreserving(fwd) && LengthPreserving(inv) && PositiveRoot(sqrt)
    requires colour == Pink ==> NonZeroDeviation(draws, fwd, inv, sqrt, sd)
    ensures |r| == |draws|
  {
    var raw := Generated(colour, draws, fwd, inv, sqrt, sd);
    Normalized(raw, Peak(AbsAll(raw)))
  }

  /** Whatever the colour and the draws, the output (with the corrected red generator) has one
      sample per draw and never leaves [-1, 1], so nothing clips. */
  lemma SynthesizedInRange(colour: Colour, draws: seq<real>,
                           fwd: seq<real> -> seq<real>, inv: seq<real> -> seq<real>,
                           sqrt: real -> real, sd: seq<real> -> real)
    requires LengthPreserving(fwd) && LengthPreserving(inv) && PositiveRoot(sqrt)
    requires colour == Pink ==> NonZeroDeviation(draws, fwd, inv, sqrt, sd)
    ensures |Synthesized(colour, draws, fwd, inv, sqrt, sd)| == |draws|
    ensures forall i :: 0 <= i < |draws| ==>
      -1.0 <= Synthesized(colour, draws, fwd, inv, sqrt, sd)[i] <= 1.0
  {
    var raw := Generated(colour, draws, fwd, inv, sqrt, sd);
    NormalizedBounded(raw, AbsAll(raw), 0);
  }

  /** Normalising the output (with the corrected red generator) again changes nothing: the
      output's peak is already 1 (or the output is silent). */
  lemma SynthesizedIsNormalized(colour: Colour, draws: seq<real>,
                                fwd: seq<real> -> seq<real>, inv: seq<real> -> seq<real>,
                                sqrt: real -> real, sd: seq<real> -> real)
    requires LengthPreserving(fwd) && LengthPreserving(inv) && PositiveRoot(sqrt)
    requires colour == Pink ==> NonZeroDeviation(draws, fwd, inv, sqrt, sd)
    ensures var out := Synthesized(colour, draws, fwd, inv, sqrt, sd);
      Normalized(out, Peak(AbsAll(out))) == out
  {
    NormalizeIdempotent(Generated(colour, draws, fwd, inv, sqrt, sd));
  }

  /** `max = gsl_stats_max(samples_abs)` and `samples[i] = samples_dbl[i] / max`, into a
      fresh output buffer. */
  method PeakNormalize(dbl: array<real>, abs: array<real>) returns (samples: array<real>)
    requires dbl.Length == abs.Length
    ensures fresh(samples)
    ensures samples[..] == Normalized(dbl[..], Peak(abs[..]))
  {
    var max := Peak(abs[..]);
    samples := new real[dbl.Length];
    for i := 0 to dbl.Length
      invariant forall k :: 0 <= k < i ==> samples[k] == Normalized(dbl[..], max)[k]
    {
      samples[i] := if max == 0.0 then dbl[i] else dbl[i] / max;
    }
  }

  /** The first `n` random draws. */
  function Draws(draw: nat -> real, n: nat): (r: seq<real>)
    ensures |r| == n && forall i :: 0 <= i < n ==> r[i] == draw(i)
  {
    seq(n, i requires 0 <= i < n => draw(i))
  }

  /** `main` from its inputs to the output buffer. `draw(i)` is the `i`-th Gaussian draw; `fwd`
      and `inv` are the forward and inverse transforms; `sqrt` is the square root; `sd` is
      the standard deviation. On a refused request the exit code is 1 and no buffer exists;
      otherwise the code is 0 and the output buffer holds `srate * dur` samples. The red
      branch runs the corrected generator `RedNoise`. */
  method Run(argc: int, alpha: int, dur: int, initOk: bool, srate: int, formatKnown: bool,
             draw: nat -> real, fwd: seq<real> -> seq<real>, inv: seq<real> -> seq<real>,
             sqrt: real -> real, sd: seq<real> -> real)
    returns (code: int, samples: array?<real>)
    requires Validate(argc, alpha, dur, initOk, srate, formatKnown).Ok? ==> srate * dur <= IntMax
    requires LengthPreserving(fwd) && LengthPreserving(inv) && PositiveRoot(sqrt)
    requires (Validate(argc, alpha, dur, initOk, srate, formatKnown).Ok? && srate * dur <= IntMax &&
              Validate(argc, alpha, dur, initOk, srate, formatKnown).value.colour == Pink) ==>
      var req := Validate(argc, alpha, dur, initOk, srate, formatKnown).value;
      NonZeroDeviation(Draws(draw, TotalSamples(req)), fwd, inv, sqrt, sd)
    ensures Validate(argc, alpha, dur, initOk, srate, formatKnown).Err? ==> code == 1 && samples == null
    ensures Validate(argc, alpha, dur, initOk, srate, formatKnown).Ok? ==>
      var req := Validate(argc, alpha, dur, initOk, srate, formatKnown).value;
      code == 0 && samples != null && fresh(samples) &&
      samples[..] == Synthesized(req.colour, Draws(draw, TotalSamples(req)), fwd, inv, sqrt, sd)
  {
    var checked := Validate(argc, alpha, dur, initOk, srate, formatKnown);
    if checked.Err? {
      return 1, null;
    }
    var req := checked.value;
    var totalsamples := TotalSamples(req);
    var dbl := new real[totalsamples];
    var abs := new real[totalsamples];
    var draws := Draws(draw, totalsamples);
    match req.colour {
      case White => WhiteNoise(dbl, abs, draws);
      case Red => RedNoise(dbl, abs, draws);
      case Pink => PinkNoise(dbl, abs, draws, fwd, inv, sqrt, sd);
    }
    assert dbl[..] == Generated(req.colour, draws, fwd, inv, sqrt, sd);
    samples := PeakNormalize(dbl, abs);
    code := 0;
  }

  /** The red branch as written can leave a sample outside [-1, 1]: with increments -2 and 1.5
      the walk is -2, -0.5; slot 0 of the absolute-value buffer still holds 0 from before, so the
      peak is 0.5 and the first output sample is -4. */
  lemma RedStaleAbsClips()
    ensures var walk := RunningSum([-2.0, 1.5]);
      walk == [-2.0, -0.5] &&
      Peak(RedAbsAsWritten(walk, 0.0)) == 0.5 &&
      Normalized(walk, Peak(RedAbsAsWritten(walk, 0.0)))[0] == -4.0
  {
    var inc := [-2.0, 1.5];
    var walk := RunningSum(inc);
    assert inc[..1] == [-2.0] && [-2.0][..0] == [];
    assert Sum([-2.0]) == -2.0;
    assert inc[..2] == inc && inc[..1] == [-2.0];
    assert Sum(inc) == -0.5;
    assert walk == [-2.0, -0.5];
    var abs := RedAbsAsWritten(walk, 0.0);
    assert abs == [0.0, 0.5];
    PeakUnique(abs, 0.5, 1);
  }

  /** With that buffer as written the bound holds only from index 1 on. */
  lemma RedAsWrittenBoundFromOne(walk: seq<real>, stale: real)
    requires |walk| >= 1
    ensures forall i :: 1 <= i < |walk| ==>
      -1.0 <= Normalized(walk, Peak(RedAbsAsWritten(walk, stale)))[i] <= 1.0
  {
    NormalizedBounded(walk, RedAbsAsWritten(walk, stale), 1);
  }

  /** The red branch as written needs a sample to store: a red request of duration 0 passes
      validation, and its draw sequence is empty, so it fails `RedNoiseAsWritten`'s
      requirement of at least one increment. */
  lemma RedZeroDurationHasNoSample(draw: nat -> real)
    ensures var checked := Validate(ArgCount, 2, 0, true, 44100, true);
      checked.Ok? && checked.value.colour == Red &&
      !(|Draws(draw, TotalSamples(checked.value))| >= 1)
  {
    Scenarios();
  }
}
