/** The per-element formulas of the Synet kernels, on exact reals. Each is the
    lane formula of the AVX-512 kernels (`_mm512_max_ps(_mm512_setzero_ps(), x)`
    is `Relu(x)`, `_mm512_andnot_ps(-0.0, x)` clears the sign bit and is
    `Abs(x)`, a fused multiply-add is `a * b + c`). The scalar kernels call
    per-element helpers (`SynetFusedLayerForward0` and the like,
    `Simd::RestrictRange`) whose header is not part of this model; they are
    taken to compute these same formulas, which nothing here proves. */
module Formulas {
  function Max(a: real, b: real): real { if a >= b then a else b }
  function Min(a: real, b: real): real { if a <= b then a else b }
  function Abs(x: real): real { if x >= 0.0 then x else -x }

  /** `max(0, x)`. */
  function Relu(x: real): real { Max(0.0, x) }

  /** Variant 0: `(x - |x|)·scale + max(0, x)`. */
  function Fused0(x: real, scale: real): real
  {
    (x - Abs(x)) * scale + Relu(x)
  }

  /** Variant 1: `max(0, -x)·scale1 + bias1 + max(0, x)`. */
  function Fused1(x: real, scale1: real, bias1: real): real
  {
    Relu(0.0 - x) * scale1 + bias1 + Relu(x)
  }

  /** Variant 2, applied to `x = src·scale + bias`: `max(0, x) + min(0, x)·slope`. */
  function Fused2(x: real, slope: real): real
  {
    Relu(x) + Min(0.0, x) * slope
  }

  /** Variant 3: `max(0, x) + scale·min(0, x)`. */
  function Fused3(x: real, scale: real): real
  {
    Relu(x) + scale * Min(0.0, x)
  }

  /** Variant 4, second output: `max(0, x·scale1 + bias1)`; the first output
      is `Relu(x)`. */
  function Fused4Second(x: real, scale1: real, bias1: real): real
  {
    Relu(x * scale1 + bias1)
  }

  /** Variant 8: `src0 + src1·src2`. */
  function Fused8(a: real, b: real, c: real): real
  {
    a + b * c
  }

  /** Variant 9: `max(0, src·scale + bias)`. */
  function Fused9(x: real, scale: real, bias: real): real
  {
    Relu(x * scale + bias)
  }

  /** Parametric ReLU: `max(0, x) + slope·min(0, x)`. */
  function Prelu(x: real, slope: real): real
  {
    Relu(x) + slope * Min(0.0, x)
  }

  /** `min(max(lower, x), upper)`. */
  function Restrict(x: real, lower: real, upper: real): real
  {
    Min(Max(lower, x), upper)
  }

  /** `src·scale + bias`. */
  function ScaleShift(x: real, scale: real, bias: real): real
  {
    x * scale + bias
  }

  /** The sign-bit trick of variant 0 doubles the negative part: on exact
      values it is a leaky ReLU whose negative slope is `2·scale`. */
  lemma Fused0IsLeaky(x: real, scale: real)
    ensures Fused0(x, scale) == Relu(x) + 2.0 * scale * Min(0.0, x)
    ensures Fused0(x, scale) == if x >= 0.0 then x else 2.0 * scale * x
  {
  }

  /** Variant 3 is PReLU of the biased input, and PReLU is the identity on the
      non-negative half-line and `slope·x` below it. */
  lemma Fused3IsPrelu(x: real, scale: real)
    ensures Fused3(x, scale) == Prelu(x, scale)
    ensures Prelu(x, scale) == if x >= 0.0 then x else scale * x
  {
  }

  /** Variant 1 is `x + bias1` above zero and `bias1 - scale1·x` below it. */
  lemma Fused1Piecewise(x: real, scale1: real, bias1: real)
    ensures Fused1(x, scale1, bias1) == if x >= 0.0 then x + bias1 else bias1 - scale1 * x
  {
  }

  /** With `lower <= upper`, a clamped value lies in `[lower, upper]`, values
      already inside are kept, clamping twice is clamping once, and the order
      of the two bounds does not matter. */
  lemma RestrictProperties(x: real, lower: real, upper: real)
    requires lower <= upper
    ensures lower <= Restrict(x, lower, upper) <= upper
    ensures lower <= x <= upper ==> Restrict(x, lower, upper) == x
    ensures Restrict(Restrict(x, lower, upper), lower, upper) == Restrict(x, lower, upper)
    ensures Restrict(x, lower, upper) == Max(lower, Min(x, upper))
  {
  }
}
