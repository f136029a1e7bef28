/** The three generators of `main`, each filling `samples_dbl` (here `dbl`) and
    `samples_abs` (here `abs`) in place. The random draws come in as a sequence: draw `i` is
    the `i`-th value `gsl_ran_gaussian` returns, whatever deviation it was asked for. */
module Generators {
  import opened Signal
  import opened Spectrum

  /** The white branch: each sample is a draw, with its absolute value beside it. */
  method WhiteNoise(dbl: array<real>, abs: array<real>, draws: seq<real>)
    requires dbl != abs && dbl.Length == abs.Length == |draws|
    modifies dbl, abs
    ensures dbl[..] == draws
    ensures abs[..] == AbsAll(dbl[..])
  {
    for i := 0 to dbl.Length
      invariant dbl[..i] == draws[..i]
      invariant forall k :: 0 <= k < i ==> abs[k] == Abs(dbl[k])
    {
      dbl[i] := draws[i];
      abs[i] := Abs(dbl[i]);
    }
  }

  /** The absolute-value buffer the red branch leaves as written: slot 0 keeps whatever it
      held before (`stale`), and every later slot holds the absolute value of its sample. */
  function RedAbsAsWritten(walk: seq<real>, stale: real): (r: seq<real>)
    requires |walk| >= 1
    ensures |r| == |walk| && r[0] == stale
    ensures forall i :: 1 <= i < |walk| ==> r[i] == Abs(walk[i])
  {
    [stale] + AbsAll(walk)[1..]
  }

  /** The red branch as written: the first sample is stored before the loop, without a check
      that the buffer has one, and the loop records absolute values only from index 1. */
  method RedNoiseAsWritten(dbl: array<real>, abs: array<real>, inc: seq<real>)
    requires dbl != abs && dbl.Length == abs.Length == |inc|
    requires |inc| >= 1
    modifies dbl, abs
    ensures WalkRecurrence(inc, dbl[..])
    ensures dbl[..] == RunningSum(inc)
    ensures abs[..] == RedAbsAsWritten(dbl[..], old(abs[0]))
  {
    dbl[0] := inc[0];
    for i := 1 to dbl.Length
      invariant dbl[0] == inc[0] && abs[0] == old(abs[0])
      invariant forall k :: 1 <= k < i ==> dbl[k] == dbl[k - 1] + inc[k] && abs[k] == Abs(dbl[k])
    {
      dbl[i] := dbl[i - 1] + inc[i];
      abs[i] := Abs(dbl[i]);
    }
    RunningSumIsWalk(inc, dbl[..]);
  }

  /** The red branch with both defects repaired: nothing is stored when there are no samples,
      and the first sample's absolute value is recorded too. */
  method RedNoise(dbl: array<real>, abs: array<real>, inc: seq<real>)
    requires dbl != abs && dbl.Length == abs.Length == |inc|
    modifies dbl, abs
    ensures WalkRecurrence(inc, dbl[..])
    ensures dbl[..] == RunningSum(inc)
    ensures abs[..] == AbsAll(dbl[..])
  {
    if dbl.Length > 0 {
      dbl[0] := inc[0];
      abs[0] := Abs(dbl[0]);
      for i := 1 to dbl.Length
        invariant dbl[0] == inc[0]
        invariant forall k :: 1 <= k < i ==> dbl[k] == dbl[k - 1] + inc[k]
        invariant forall k :: 0 <= k < i ==> abs[k] == Abs(dbl[k])
      {
        dbl[i] := dbl[i - 1] + inc[i];
        abs[i] := Abs(dbl[i]);
      }
    }
    RunningSumIsWalk(inc, dbl[..]);
  }

  /** The first pink step: the buffer is filled with draws; no absolute values yet. */
  method FillDraws(dbl: array<real>, draws: seq<real>)
    requires dbl.Length == |draws|
    modifies dbl
    ensures dbl[..] == draws
  {
    for i := 0 to dbl.Length
      invariant dbl[..i] == draws[..i]
    {
      dbl[i] := draws[i];
    }
  }

  /** `REAL(fftdata, i) = samples_dbl[i]; IMAG(fftdata, i) = 0.0` for every sample. */
  method PackSamples(fft: array<real>, dbl: array<real>)
    requires fft.Length == 2 * dbl.Length
    modifies fft
    ensures fft[..] == Packed(dbl[..])
  {
    for i := 0 to dbl.Length
      invariant forall k :: 0 <= k < 2 * i ==> fft[k] == Packed(dbl[..])[k]
    {
      fft[Slot(i, 0)] := dbl[i];
      fft[Slot(i, 1)] := 0.0;
    }
  }

  /** A length-preserving transform of the packed buffer, as `gsl_fft_complex_forward` and
      `gsl_fft_complex_inverse` are. */
  ghost predicate LengthPreserving(f: seq<real> -> seq<real>)
  {
    forall z: seq<real> :: |f(z)| == |z|
  }

  /** A transform applied to the packed buffer in place. */
  method Transform(fft: array<real>, f: seq<real> -> seq<real>)
    requires LengthPreserving(f)
    modifies fft
    ensures fft[..] == f(old(fft[..]))
  {
    var z := f(fft[..]);
    forall k | 0 <= k < fft.Length {
      fft[k] := z[k];
    }
  }

  /** The 1/f shaping: bins below the midpoint are divided by `sqrt(i + 1)`, bins from the
      midpoint on by `sqrt(n - i)`, both parts of a bin alike. `visits[i]` counts how often
      the two loops reach bin `i`. */
  method ScaleBins(fft: array<real>, n: nat, sqrt: real -> real) returns (ghost visits: seq<nat>)
    requires fft.Length == 2 * n && PositiveRoot(sqrt)
    modifies fft
    ensures fft[..] == ScaledBins(old(fft[..]), n, sqrt)
    ensures |visits| == n && forall i :: 0 <= i < n ==> visits[i] == 1
  {
    ghost var z := fft[..];
    visits := seq(n, i => 0);
    var points := Points(n);
    for i := 0 to points
      invariant forall j: nat, part: Part :: j < i ==>
        fft[Slot(j, part)] == z[Slot(j, part)] / sqrt(Divisor(n, j) as real)
      invariant forall k :: 2 * i <= k < 2 * n ==> fft[k] == z[k]
      invariant |visits| == n && forall j :: 0 <= j < n ==> visits[j] == if j < i then 1 else 0
    {
      fft[Slot(i, 0)] := fft[Slot(i, 0)] / sqrt((i + 1) as real);
      fft[Slot(i, 1)] := fft[Slot(i, 1)] / sqrt((i + 1) as real);
      visits := visits[i := visits[i] + 1];
    }
    for i := points to n
      invariant forall j: nat, part: Part :: j < i ==>
        fft[Slot(j, part)] == z[Slot(j, part)] / sqrt(Divisor(n, j) as real)
      invariant forall k :: 2 * i <= k < 2 * n ==> fft[k] == z[k]
      invariant |visits| == n && forall j :: 0 <= j < n ==> visits[j] == if j < i then 1 else 0
    {
      fft[Slot(i, 0)] := fft[Slot(i, 0)] / sqrt((n - i) as real);
      fft[Slot(i, 1)] := fft[Slot(i, 1)] / sqrt((n - i) as real);
      visits := visits[i := visits[i] + 1];
    }
    forall k | 0 <= k < 2 * n
      ensures fft[k] == ScaledBins(z, n, sqrt)[k]
    {
      assert k == Slot(k / 2, k % 2);
    }
  }

  /** `samples_dbl[i] = REAL(fftdata, i)`: the imaginary parts are dropped. */
  method UnpackReal(dbl: array<real>, fft: array<real>)
    requires fft.Length == 2 * dbl.Length
    modifies dbl
    ensures dbl[..] == RealParts(fft[..])
  {
    for i := 0 to dbl.Length
      invariant dbl[..i] == RealParts(fft[..])[..i]
    {
      dbl[i] := fft[Slot(i, 0)];
    }
  }

  /** `samples_dbl[i] = (samples_dbl[i] - pink_mean) / pink_std`, with the absolute value
      recorded beside it. */
  method Recentre(dbl: array<real>, abs: array<real>, mean: real, sd: real)
    requires dbl != abs && dbl.Length == abs.Length && sd != 0.0
    modifies dbl, abs
    ensures dbl[..] == Recentred(old(dbl[..]), mean, sd)
    ensures abs[..] == AbsAll(dbl[..])
  {
    ghost var s := dbl[..];
    for i := 0 to dbl.Length
      invariant forall k :: 0 <= k < i ==> dbl[k] == (s[k] - mean) / sd && abs[k] == Abs(dbl[k])
      invariant forall k :: i <= k < dbl.Length ==> dbl[k] == s[k]
    {
      dbl[i] := (dbl[i] - mean) / sd;
      abs[i] := Abs(dbl[i]);
    }
  }

  /** What `gsl_stats_sd` must give for the re-centring to be defined: a nonzero deviation of
      the one buffer it is applied to, the shaped pink buffer of these draws. */
  ghost predicate NonZeroDeviation(draws: seq<real>, fwd: seq<real> -> seq<real>,
                                   inv: seq<real> -> seq<real>, sqrt: real -> real,
                                   sd: seq<real> -> real)
    requires LengthPreserving(fwd) && LengthPreserving(inv) && PositiveRoot(sqrt)
  {
    sd(PinkShaped(draws, fwd, inv, sqrt)) != 0.0
  }

  /** The pink buffer before re-centring: draws packed, transformed forward, shaped, transformed
      back, and the real parts kept. */
  function PinkShaped(draws: seq<real>, fwd: seq<real> -> seq<real>, inv: seq<real> -> seq<real>,
                      sqrt: real -> real): (r: seq<real>)
    requires LengthPreserving(fwd) && LengthPreserving(inv) && PositiveRoot(sqrt)
    ensures |r| == |draws|
  {
    var spectrum := fwd(Packed(draws));
    var shaped := ScaledBins(spectrum, |draws|, sqrt);
    RealParts(inv(shaped))
  }

  /** The pink buffer: the shaped buffer re-centred by its own mean and deviation. */
  function PinkBuffer(draws: seq<real>, fwd: seq<real> -> seq<real>, inv: seq<real> -> seq<real>,
                sqrt: real -> real, sd: seq<real> -> real): (r: seq<real>)
    requires LengthPreserving(fwd) && LengthPreserving(inv) && PositiveRoot(sqrt)
    requires NonZeroDeviation(draws, fwd, inv, sqrt, sd)
    ensures |r| == |draws|
  {
    var x := PinkShaped(draws, fwd, inv, sqrt);
    Recentred(x, Mean(x), sd(x))
  }

  /** The re-centred pink buffer sums to zero. */
  lemma PinkSumsToZero(draws: seq<real>, fwd: seq<real> -> seq<real>, inv: seq<real> -> seq<real>,
                       sqrt: real -> real, sd: seq<real> -> real)
    requires LengthPreserving(fwd) && LengthPreserving(inv) && PositiveRoot(sqrt)
    requires NonZeroDeviation(draws, fwd, inv, sqrt, sd)
    ensures Sum(PinkBuffer(draws, fwd, inv, sqrt, sd)) == 0.0
  {
    var x := PinkShaped(draws, fwd, inv, sqrt);
    RecentredSumsToZero(x, sd(x));
  }

  /** The pink branch, step by step on the buffers. */
  method PinkNoise(dbl: array<real>, abs: array<real>, draws: seq<real>,
                   fwd: seq<real> -> seq<real>, inv: seq<real> -> seq<real>,
                   sqrt: real -> real, sd: seq<real> -> real)
    requires dbl != abs && dbl.Length == abs.Length == |draws|
    requires LengthPreserving(fwd) && LengthPreserving(inv) && PositiveRoot(sqrt)
    requires NonZeroDeviation(draws, fwd, inv, sqrt, sd)
    modifies dbl, abs
    ensures dbl[..] == PinkBuffer(draws, fwd, inv, sqrt, sd)
    ensures abs[..] == AbsAll(dbl[..])
  {
    var n := dbl.Length;
    FillDraws(dbl, draws);
    var fftdata := new real[2 * n];
    PackSamples(fftdata, dbl);
    Transform(fftdata, fwd);
    ghost var visits := ScaleBins(fftdata, n, sqrt);
    Transform(fftdata, inv);
    UnpackReal(dbl, fftdata);
    var mean := Mean(dbl[..]);
    var std := sd(dbl[..]);
    Recentre(dbl, abs, mean, std);
  }
}
