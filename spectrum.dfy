/** The frequency-domain side of the pink-noise generator: the interleaved complex buffer
    (`REAL(z,i)` / `IMAG(z,i)`), the midpoint of the spectrum and the per-bin divisors of the
    1/f shaping. */
module Spectrum {

  /** Part 0 (real) and part 1 (imaginary) of a complex element. */
  type Part = p: nat | p < 2

  /** Index of part `part` of complex element `i` in the packed buffer: `REAL(z,i)` is `z[2*i]`
      and `IMAG(z,i)` is `z[2*i+1]`. The pair is recovered from the index, so distinct pairs
      never share a slot. */
  function Slot(i: nat, part: Part): (k: nat)
    ensures k / 2 == i && k % 2 == part
  {
    2 * i + part
  }

  /** The `n` complex elements occupy exactly the slots `[0, 2n)`. */
  lemma SlotsFill(n: nat)
    ensures forall i: nat, part: Part :: i < n ==> Slot(i, part) < 2 * n
    ensures forall k: nat :: k < 2 * n ==> k / 2 < n && Slot(k / 2, k % 2) == k
  {
  }

  /** A real sequence embedded as complex values with zero imaginary parts. */
  function Packed(s: seq<real>): (z: seq<real>)
    ensures |z| == 2 * |s|
    ensures forall i: nat, part: Part :: i < |s| ==> z[Slot(i, part)] == if part == 0 then s[i] else 0.0
  {
    seq(2 * |s|, k requires 0 <= k < 2 * |s| => if k % 2 == 0 then s[k / 2] else 0.0)
  }

  /** The real parts of a packed buffer. */
  function RealParts(z: seq<real>): (s: seq<real>)
    requires |z| % 2 == 0
    ensures 2 * |s| == |z|
    ensures forall i: nat :: i < |s| ==> s[i] == z[Slot(i, 0)]
  {
    seq(|z| / 2, i requires 0 <= i < |z| / 2 => z[2 * i])
  }

  /** Packing a real sequence and reading the real parts back returns the sequence. */
  lemma RealPartsOfPacked(s: seq<real>)
    ensures RealParts(Packed(s)) == s
  {
    var z := Packed(s);
    forall i | 0 <= i < |s|
      ensures RealParts(z)[i] == s[i]
    {
      assert z[Slot(i, 0)] == s[i];
    }
  }

  /** The midpoint `points` of an `n`-point spectrum: `n/2` for even `n` and `n/2 + 1` for odd
      `n`, that is, the ceiling of `n/2`. */
  function Points(n: nat): (p: nat)
    ensures p + p == n || p + p == n + 1
    ensures p <= n && (n > 0 ==> p >= 1)
  {
    if n % 2 != 0 then n / 2 + 1 else n / 2
  }

  /** The number whose square root divides bin `i`: `i + 1` below the midpoint and `n - i` from
      the midpoint on. It is never below 1 and never above the midpoint. */
  function Divisor(n: nat, i: nat): (d: nat)
    requires i < n
    ensures 1 <= d <= Points(n)
  {
    if i < Points(n) then i + 1 else n - i
  }

  /** The shaping is mirrored about the centre of the spectrum. */
  lemma {:induction false} DivisorMirrored(n: nat, i: nat)
    requires i < n
    ensures Divisor(n, i) == Divisor(n, n - 1 - i)
  {
    var p := Points(n);
    if i < p && n - 1 - i < p {
      // only possible at the middle bin of an odd-length spectrum
      assert n - 1 - i == i;
    }
  }

  /** What the source's `sqrt` must give for the divisions to be defined: a positive root for
      every number from 1 on. */
  ghost predicate PositiveRoot(sqrt: real -> real)
  {
    forall x: real :: x >= 1.0 ==> sqrt(x) > 0.0
  }

  /** The shaped spectrum: both parts of bin `i` divided by the square root of its divisor. */
  function ScaledBins(z: seq<real>, n: nat, sqrt: real -> real): (r: seq<real>)
    requires |z| == 2 * n && PositiveRoot(sqrt)
    ensures |r| == |z|
    ensures forall i: nat, part: Part :: i < n ==>
      r[Slot(i, part)] == z[Slot(i, part)] / sqrt(Divisor(n, i) as real)
  {
    seq(2 * n, k requires 0 <= k < 2 * n => z[k] / sqrt(Divisor(n, k / 2) as real))
  }
}
