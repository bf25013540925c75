/** The AVX-512 inner product (`Simd::Avx512f`). A register is modelled as
    its 16 lanes; a row's dot product is accumulated lane-wise by fused
    multiply-adds over loads of `src` and of the weight row, and the lanes
    are summed at the end (`ExtractSum`). Every load is proved to stay inside
    the row, and each output to be the exact dot product plus its bias.

    The four-row kernel as written bounds its two-register loop by `K16`
    instead of `K32`; `Forward4Loads` describes the loads of either loop
    bound, and the lemmas below show the written bound reads past the row
    while `K32` tiles it. The kernel proved here uses `K32`. */
module AvxInnerProduct {
  import opened Lanes
  import opened Layout
  import opened Reference
  import Base

  // ---------------------------------------------------------------------
  // Registers.

  /** `_mm512_setzero_ps()`. */
  function SetZero(): (r: seq<real>)
    ensures |r| == F
  {
    seq(F, l => 0.0)
  }

  /** `_mm512_fmadd_ps(a, b, c)`, lane by lane `a·b + c`. */
  function FmaddPs(a: seq<real>, b: seq<real>, c: seq<real>): (r: seq<real>)
    requires |a| == |b| == |c| == F
    ensures |r| == F
  {
    seq(F, l requires 0 <= l < F => a[l] * b[l] + c[l])
  }

  /** `_mm512_add_ps(a, b)`. */
  function AddPs(a: seq<real>, b: seq<real>): (r: seq<real>)
    requires |a| == |b| == F
    ensures |r| == F
  {
    seq(F, l requires 0 <= l < F => a[l] + b[l])
  }

  /** The sum of the first `n` lanes. */
  function SumTo(r: seq<real>, n: nat): real
    requires n <= |r|
  {
    if n == 0 then 0.0 else SumTo(r, n - 1) + r[n - 1]
  }

  /** `ExtractSum`: the sum of all lanes of a register. */
  function ExtractSum(r: seq<real>): real
  {
    SumTo(r, |r|)
  }

  /** The zero register sums to zero. */
  lemma {:induction false} ZeroSum(n: nat)
    requires n <= F
    ensures SumTo(SetZero(), n) == 0.0
  {
    if n > 0 {
      ZeroSum(n - 1);
    }
  }

  /** Lane sums are additive. */
  lemma {:induction false} AddPsSum(a: seq<real>, b: seq<real>, n: nat)
    requires |a| == |b| == F && n <= F
    ensures SumTo(AddPs(a, b), n) == SumTo(a, n) + SumTo(b, n)
  {
    if n > 0 {
      AddPsSum(a, b, n - 1);
    }
  }

  /** The lanes of a sum of registers sum to the sum of their lane sums. */
  lemma AddPsExtract(a: seq<real>, b: seq<real>)
    requires |a| == |b| == F
    ensures ExtractSum(AddPs(a, b)) == ExtractSum(a) + ExtractSum(b)
  {
    AddPsSum(a, b, F);
  }

  /** A fused multiply-add whose products are the first `m` terms of a dot
      product from `at` (and zero beyond) adds those terms to the lane sum. */
  lemma {:induction false} FmaddPrefix(s: seq<real>, w: seq<real>, c: seq<real>, src: seq<real>, weight: seq<real>,
                                       off: nat, at: nat, m: nat, n: nat)
    requires |s| == |w| == |c| == F && m <= F && n <= F
    requires forall l :: 0 <= l < F ==>
      s[l] * w[l] == if l < m then At(src, at + l) * At(weight, off + at + l) else 0.0
    ensures SumTo(FmaddPs(s, w, c), n) == SumTo(c, n) + Dot(src, weight, off, at, at + (if n < m then n else m))
  {
    if n > 0 {
      FmaddPrefix(s, w, c, src, weight, off, at, m, n - 1);
    }
  }

  /** A full step: the lane sum grows by the sixteen terms from `at`. */
  lemma FmaddLoads(src: seq<real>, weight: seq<real>, off: nat, at: nat, c: seq<real>)
    requires at + F <= |src| && off + at + F <= |weight| && |c| == F
    ensures ExtractSum(FmaddPs(LoadU(src, at), LoadU(weight, off + at), c)) == ExtractSum(c) + Dot(src, weight, off, at, at + F)
  {
    var s, w := LoadU(src, at), LoadU(weight, off + at);
    forall l | 0 <= l < F
      ensures s[l] * w[l] == At(src, at + l) * At(weight, off + at + l)
    {
    }
    FmaddPrefix(s, w, c, src, weight, off, at, F, F);
  }

  /** A masked step with the low `m` lanes: the lane sum grows by the `m`
      terms from `at`, and nothing past them is read. */
  lemma FmaddMaskedLoads(mask: bv16, m: nat, src: seq<real>, weight: seq<real>, off: nat, at: nat, c: seq<real>)
    requires m <= F && forall l: nat :: LaneOn(mask, l) <==> l < m
    requires at + m <= |src| && off + at + m <= |weight| && |c| == F
    ensures ExtractSum(FmaddPs(MaskzLoadU(mask, src, at), MaskzLoadU(mask, weight, off + at), c))
         == ExtractSum(c) + Dot(src, weight, off, at, at + m)
  {
    var s, w := MaskzLoadU(mask, src, at), MaskzLoadU(mask, weight, off + at);
    forall l | 0 <= l < F
      ensures s[l] * w[l] == if l < m then At(src, at + l) * At(weight, off + at + l) else 0.0
    {
      assert LaneOn(mask, l) <==> l < m;
    }
    FmaddPrefix(s, w, c, src, weight, off, at, m, F);
  }

  // ---------------------------------------------------------------------
  // Row steps.

  /** One weight row against two source registers (`s0` at `k`, `s1` at
      `k + F`): two weight loads and two fused multiply-adds. */
  method RowPair(src: seq<real>, weight: seq<real>, off: nat, k: nat, s0: seq<real>, s1: seq<real>,
                 a: seq<real>, b: seq<real>) returns (a': seq<real>, b': seq<real>)
    requires k + 2 * F <= |src| && off + k + 2 * F <= |weight| && |a| == |b| == F
    requires s0 == LoadU(src, k) && s1 == LoadU(src, k + F)
    ensures |a'| == |b'| == F
    ensures ExtractSum(a') + ExtractSum(b') == ExtractSum(a) + ExtractSum(b) + Dot(src, weight, off, k, k + 2 * F)
    ensures ExtractSum(a) + ExtractSum(b) == Dot(src, weight, off, 0, k) ==>
      ExtractSum(a') + ExtractSum(b') == Dot(src, weight, off, 0, k + 2 * F)
  {
    var w0 := LoadU(weight, off + k);
    var w1 := LoadU(weight, off + (k + F));
    a' := FmaddPs(s0, w0, a);
    b' := FmaddPs(s1, w1, b);
    FmaddLoads(src, weight, off, k, a);
    FmaddLoads(src, weight, off, k + F, b);
    DotSplit(src, weight, off, k, k + F, k + 2 * F);
    DotSplit(src, weight, off, 0, k, k + 2 * F);
  }

  /** One weight row against one source register at `k`. */
  method RowSingle(src: seq<real>, weight: seq<real>, off: nat, k: nat, s0: seq<real>, a: seq<real>) returns (a': seq<real>)
    requires k + F <= |src| && off + k + F <= |weight| && |a| == F
    requires s0 == LoadU(src, k)
    ensures |a'| == F
    ensures ExtractSum(a') == ExtractSum(a) + Dot(src, weight, off, k, k + F)
    ensures ExtractSum(a) == Dot(src, weight, off, 0, k) ==> ExtractSum(a') == Dot(src, weight, off, 0, k + F)
  {
    var w0 := LoadU(weight, off + k);
    a' := FmaddPs(s0, w0, a);
    FmaddLoads(src, weight, off, k, a);
    DotSplit(src, weight, off, 0, k, k + F);
  }

  /** One weight row against the masked source register of the last
      `K - k` cells. */
  method RowTail(src: seq<real>, weight: seq<real>, off: nat, k: nat, K: nat, tail: bv16, s0: seq<real>, a: seq<real>)
      returns (a': seq<real>)
    requires k < K <= k + F && K <= |src| && off + K <= |weight| && |a| == F
    requires forall l: nat :: LaneOn(tail, l) <==> l < K - k
    requires s0 == MaskzLoadU(tail, src, k)
    ensures |a'| == F
    ensures ExtractSum(a') == ExtractSum(a) + Dot(src, weight, off, k, K)
    ensures ExtractSum(a) == Dot(src, weight, off, 0, k) ==> ExtractSum(a') == Dot(src, weight, off, 0, K)
  {
    var w0 := MaskzLoadU(tail, weight, off + k);
    a' := FmaddPs(s0, w0, a);
    FmaddMaskedLoads(tail, K - k, src, weight, off, k, a);
    DotSplit(src, weight, off, 0, k, K);
  }

  /** The tail mask `__mmask16(-1) >> (16 + k - K)` of the last `K - k`
      cells. */
  lemma TailLanes(k: nat, K: nat, l: nat)
    requires k < K <= k + F
    ensures LaneOn(ShiftedMask(16 + k - K), l) <==> l < K - k
  {
    ShiftedMaskLanes(16 + k - K, l);
  }

  // ---------------------------------------------------------------------
  // Kernels.

  /** `SynetInnerProductLayerForward1`: `D[at] = ExtractSum(d00) + B[0]`. */
  method InnerProductForward1(src: seq<real>, weight: seq<real>, off: nat, b: seq<real>, K: nat, dst: array<real>, at: nat)
    requires K <= |src| && off + K <= |weight| && |b| >= 1 && at < dst.Length
    modifies dst
    ensures dst[..] == old(dst[..])[at := Dot(src, weight, off, 0, K) + b[0]]
  {
    var d00 := Forward1Register(src, weight, off, K);
    dst[at] := ExtractSum(d00) + b[0];
  }

  /** The accumulation of `SynetInnerProductLayerForward1`: steps of 64 over
      four registers, then steps of 16, then one masked step; the lanes of
      the register left sum to the dot product of the row. */
  method Forward1Register(src: seq<real>, weight: seq<real>, off: nat, K: nat) returns (d00: seq<real>)
    requires K <= |src| && off + K <= |weight|
    ensures |d00| == F && ExtractSum(d00) == Dot(src, weight, off, 0, K)
  {
    var K16 := AlignLo(K, F);
    var k;
    k, d00 := Forward1Quads(src, weight, off, K);
    while k < K16
      invariant k <= K16 && k % F == 0 && |d00| == F
      invariant ExtractSum(d00) == Dot(src, weight, off, 0, k)
    {
      Base.AlignedStep(k, K16, F);
      var s0 := LoadU(src, k);
      d00 := RowSingle(src, weight, off, k, s0, d00);
      k := k + F;
    }
    if k < K {
      var tail := ShiftedMask(16 + k - K);
      forall l: nat
        ensures LaneOn(tail, l) <==> l < K - k
      {
        TailLanes(k, K, l);
      }
      var s0 := MaskzLoadU(tail, src, k);
      d00 := RowTail(src, weight, off, k, K, tail, s0, d00);
    }
  }

  /** The 64-step loop of `SynetInnerProductLayerForward1` (run when
      `K64 != 0`), its four registers added together at the end. */
  method Forward1Quads(src: seq<real>, weight: seq<real>, off: nat, K: nat) returns (k: nat, d00: seq<real>)
    requires K <= |src| && off + K <= |weight|
    ensures k == AlignLo(K, QF) && k <= AlignLo(K, F) && k % F == 0
    ensures |d00| == F && ExtractSum(d00) == Dot(src, weight, off, 0, k)
  {
    var K64 := AlignLo(K, QF);
    SegmentBreakpoints(K);
    d00 := SetZero();
    ZeroSum(F);
    k := 0;
    if K64 != 0 {
      var d01, d02, d03 := SetZero(), SetZero(), SetZero();
      while k < K64
        invariant k <= K64 && k % QF == 0
        invariant |d00| == |d01| == |d02| == |d03| == F
        invariant ExtractSum(d00) + ExtractSum(d01) + ExtractSum(d02) + ExtractSum(d03) == Dot(src, weight, off, 0, k)
      {
        Base.AlignedStep(k, K64, QF);
        d00, d01, d02, d03 := Forward1Quad(src, weight, off, k, d00, d01, d02, d03);
        DotSplit(src, weight, off, 0, k, k + QF);
        k := k + QF;
      }
      AddPsExtract(d00, d01);
      AddPsExtract(d02, d03);
      AddPsExtract(AddPs(d00, d01), AddPs(d02, d03));
      d00 := AddPs(AddPs(d00, d01), AddPs(d02, d03));
    }
  }

  /** One iteration of the 64-step loop of `InnerProductForward1`. */
  method Forward1Quad(src: seq<real>, weight: seq<real>, off: nat, k: nat,
                      d00: seq<real>, d01: seq<real>, d02: seq<real>, d03: seq<real>)
      returns (e00: seq<real>, e01: seq<real>, e02: seq<real>, e03: seq<real>)
    requires k + QF <= |src| && off + k + QF <= |weight|
    requires |d00| == |d01| == |d02| == |d03| == F
    ensures |e00| == |e01| == |e02| == |e03| == F
    ensures ExtractSum(e00) + ExtractSum(e01) + ExtractSum(e02) + ExtractSum(e03)
         == ExtractSum(d00) + ExtractSum(d01) + ExtractSum(d02) + ExtractSum(d03) + Dot(src, weight, off, k, k + QF)
  {
    var s0, s1 := LoadU(src, k), LoadU(src, k + F);
    e00, e01 := RowPair(src, weight, off, k, s0, s1, d00, d01);
    var s2, s3 := LoadU(src, k + 2 * F), LoadU(src, k + 2 * F + F);
    e02, e03 := RowPair(src, weight, off, k + 2 * F, s2, s3, d02, d03);
    DotSplit(src, weight, off, k, k + 2 * F, k + QF);
  }

  /** A multiple of `a` not above `n` is not above `AlignLo(n, a)`. */
  lemma AlignedBelow(m: nat, n: nat, a: nat)
    requires a > 0 && m % a == 0 && m <= n
    ensures m <= AlignLo(n, a)
  {
    var q, r := m / a, n / a;
    assert m == q * a && n == r * a + n % a;
    if q > r {
      MulLe(r + 1, q, a);
    }
    MulLe(q, r, a);
  }

  /** The breakpoints of the four-row kernel: `K32 <= K16 <= K`, `K32` a
      multiple of 16. */
  lemma PairBreakpoints(K: nat)
    ensures AlignLo(K, 2 * F) <= AlignLo(K, F) <= K
    ensures AlignLo(K, 2 * F) % F == 0
  {
    var q := K / (2 * F);
    assert AlignLo(K, 2 * F) == (q * 2) * F;
    MultipleMod(q * 2, F);
    AlignedBelow(AlignLo(K, 2 * F), K, F);
  }

  /** `SynetInnerProductLayerForward4`: rows `W0..W3` at `off`, `off + K`,
      `off + 2K`, `off + 3K`; `D[r] = ExtractSum(dr0) + B[r]`. */
  method InnerProductForward4(src: seq<real>, weight: seq<real>, off: nat, b: seq<real>, K: nat, dst: array<real>, at: nat)
    requires K <= |src| && off + 4 * K <= |weight| && |b| >= 4 && at + 4 <= dst.Length
    modifies dst
    ensures dst[..] == old(dst[..])[at := Dot(src, weight, off, 0, K) + b[0]]
                                   [at + 1 := Dot(src, weight, off + K, 0, K) + b[1]]
                                   [at + 2 := Dot(src, weight, off + 2 * K, 0, K) + b[2]]
                                   [at + 3 := Dot(src, weight, off + 3 * K, 0, K) + b[3]]
  {
    var d00, d10, d20, d30 := Forward4Registers(src, weight, off, K);
    dst[at] := ExtractSum(d00) + b[0];
    dst[at + 1] := ExtractSum(d10) + b[1];
    dst[at + 2] := ExtractSum(d20) + b[2];
    dst[at + 3] := ExtractSum(d30) + b[3];
  }

  /** The accumulation of `SynetInnerProductLayerForward4`: steps of 32 with
      two registers per row, then steps of 16, then one masked step. */
  method Forward4Registers(src: seq<real>, weight: seq<real>, off: nat, K: nat)
      returns (d00: seq<real>, d10: seq<real>, d20: seq<real>, d30: seq<real>)
    requires K <= |src| && off + 4 * K <= |weight|
    ensures |d00| == |d10| == |d20| == |d30| == F
    ensures ExtractSum(d00) == Dot(src, weight, off, 0, K)
    ensures ExtractSum(d10) == Dot(src, weight, off + K, 0, K)
    ensures ExtractSum(d20) == Dot(src, weight, off + 2 * K, 0, K)
    ensures ExtractSum(d30) == Dot(src, weight, off + 3 * K, 0, K)
  {
    var k;
    k, d00, d10, d20, d30 := Forward4Pairs(src, weight, off, K);
    k, d00, d10, d20, d30 := Forward4Singles(src, weight, off, K, k, d00, d10, d20, d30);
    if k < K {
      d00, d10, d20, d30 := Forward4Tail(src, weight, off, K, k, d00, d10, d20, d30);
    }
  }

  /** The 32-step loop of the four-row kernel (run when `K32 != 0`), the two
      registers of each row added together at the end. It runs while
      `k < K32`; the kernel as written runs it while `k < K16` (see
      `Forward4Loads`). */
  method Forward4Pairs(src: seq<real>, weight: seq<real>, off: nat, K: nat)
      returns (k: nat, d00: seq<real>, d10: seq<real>, d20: seq<real>, d30: seq<real>)
    requires K <= |src| && off + 4 * K <= |weight|
    ensures k == AlignLo(K, 2 * F) && k <= AlignLo(K, F) && k % F == 0
    ensures |d00| == |d10| == |d20| == |d30| == F
    ensures ExtractSum(d00) == Dot(src, weight, off, 0, k) && ExtractSum(d10) == Dot(src, weight, off + K, 0, k)
    ensures ExtractSum(d20) == Dot(src, weight, off + 2 * K, 0, k) && ExtractSum(d30) == Dot(src, weight, off + 3 * K, 0, k)
  {
    var K32 := AlignLo(K, 2 * F);
    PairBreakpoints(K);
    if K32 != 0 {
      var d01, d11, d21, d31;
      k, d00, d01, d10, d11, d20, d21, d30, d31 := Forward4PairLoop(src, weight, off, K);
      AddPsExtract(d00, d01);
      AddPsExtract(d10, d11);
      AddPsExtract(d20, d21);
      AddPsExtract(d30, d31);
      d00 := AddPs(d00, d01);
      d10 := AddPs(d10, d11);
      d20 := AddPs(d20, d21);
      d30 := AddPs(d30, d31);
    } else {
      k := 0;
      d00, d10, d20, d30 := SetZero(), SetZero(), SetZero(), SetZero();
      ZeroSum(F);
    }
  }

  /** The loop itself: both source registers are loaded once per step and
      used against all four weight rows. */
  method Forward4PairLoop(src: seq<real>, weight: seq<real>, off: nat, K: nat)
      returns (k: nat, d00: seq<real>, d01: seq<real>, d10: seq<real>, d11: seq<real>,
               d20: seq<real>, d21: seq<real>, d30: seq<real>, d31: seq<real>)
    requires K <= |src| && off + 4 * K <= |weight|
    ensures k == AlignLo(K, 2 * F)
    ensures |d00| == |d01| == |d10| == |d11| == |d20| == |d21| == |d30| == |d31| == F
    ensures ExtractSum(d00) + ExtractSum(d01) == Dot(src, weight, off, 0, k)
    ensures ExtractSum(d10) + ExtractSum(d11) == Dot(src, weight, off + K, 0, k)
    ensures ExtractSum(d20) + ExtractSum(d21) == Dot(src, weight, off + 2 * K, 0, k)
    ensures ExtractSum(d30) + ExtractSum(d31) == Dot(src, weight, off + 3 * K, 0, k)
  {
    var K32 := AlignLo(K, 2 * F);
    var W0, W1, W2, W3 := off, off + K, off + 2 * K, off + 3 * K;
    d00, d10, d20, d30 := SetZero(), SetZero(), SetZero(), SetZero();
    d01, d11, d21, d31 := SetZero(), SetZero(), SetZero(), SetZero();
    ZeroSum(F);
    k := 0;
    while k < K32
      invariant k <= K32 && k % (2 * F) == 0
      invariant |d00| == |d01| == |d10| == |d11| == |d20| == |d21| == |d30| == |d31| == F
      invariant ExtractSum(d00) + ExtractSum(d01) == Dot(src, weight, W0, 0, k)
      invariant ExtractSum(d10) + ExtractSum(d11) == Dot(src, weight, W1, 0, k)
      invariant ExtractSum(d20) + ExtractSum(d21) == Dot(src, weight, W2, 0, k)
      invariant ExtractSum(d30) + ExtractSum(d31) == Dot(src, weight, W3, 0, k)
    {
      Base.AlignedStep(k, K32, 2 * F);
      var s0, s1 := LoadU(src, k), LoadU(src, k + F);
      d00, d01 := RowPair(src, weight, W0, k, s0, s1, d00, d01);
      d10, d11 := RowPair(src, weight, W1, k, s0, s1, d10, d11);
      d20, d21 := RowPair(src, weight, W2, k, s0, s1, d20, d21);
      d30, d31 := RowPair(src, weight, W3, k, s0, s1, d30, d31);
      k := k + 2 * F;
    }
  }

  /** The 16-step loop of the four-row kernel, up to `K16`. */
  method Forward4Singles(src: seq<real>, weight: seq<real>, off: nat, K: nat, k0: nat,
                         a0: seq<real>, a1: seq<real>, a2: seq<real>, a3: seq<real>)
      returns (k: nat, d00: seq<real>, d10: seq<real>, d20: seq<real>, d30: seq<real>)
    requires K <= |src| && off + 4 * K <= |weight| && k0 <= AlignLo(K, F) && k0 % F == 0
    requires |a0| == |a1| == |a2| == |a3| == F
    requires ExtractSum(a0) == Dot(src, weight, off, 0, k0) && ExtractSum(a1) == Dot(src, weight, off + K, 0, k0)
    requires ExtractSum(a2) == Dot(src, weight, off + 2 * K, 0, k0) && ExtractSum(a3) == Dot(src, weight, off + 3 * K, 0, k0)
    ensures k == AlignLo(K, F) && |d00| == |d10| == |d20| == |d30| == F
    ensures ExtractSum(d00) == Dot(src, weight, off, 0, k) && ExtractSum(d10) == Dot(src, weight, off + K, 0, k)
    ensures ExtractSum(d20) == Dot(src, weight, off + 2 * K, 0, k) && ExtractSum(d30) == Dot(src, weight, off + 3 * K, 0, k)
  {
    var K16 := AlignLo(K, F);
    var W0, W1, W2, W3 := off, off + K, off + 2 * K, off + 3 * K;
    k, d00, d10, d20, d30 := k0, a0, a1, a2, a3;
    while k < K16
      invariant k <= K16 && k % F == 0
      invariant |d00| == |d10| == |d20| == |d30| == F
      invariant ExtractSum(d00) == Dot(src, weight, W0, 0, k) && ExtractSum(d10) == Dot(src, weight, W1, 0, k)
      invariant ExtractSum(d20) == Dot(src, weight, W2, 0, k) && ExtractSum(d30) == Dot(src, weight, W3, 0, k)
    {
      Base.AlignedStep(k, K16, F);
      var s0 := LoadU(src, k);
      d00 := RowSingle(src, weight, W0, k, s0, d00);
      d10 := RowSingle(src, weight, W1, k, s0, d10);
      d20 := RowSingle(src, weight, W2, k, s0, d20);
      d30 := RowSingle(src, weight, W3, k, s0, d30);
      k := k + F;
    }
  }

  /** The masked step of the four-row kernel over the last `K - k` cells. */
  method Forward4Tail(src: seq<real>, weight: seq<real>, off: nat, K: nat, k: nat,
                      a0: seq<real>, a1: seq<real>, a2: seq<real>, a3: seq<real>)
      returns (d00: seq<real>, d10: seq<real>, d20: seq<real>, d30: seq<real>)
    requires K <= |src| && off + 4 * K <= |weight| && k < K <= k + F
    requires |a0| == |a1| == |a2| == |a3| == F
    requires ExtractSum(a0) == Dot(src, weight, off, 0, k) && ExtractSum(a1) == Dot(src, weight, off + K, 0, k)
    requires ExtractSum(a2) == Dot(src, weight, off + 2 * K, 0, k) && ExtractSum(a3) == Dot(src, weight, off + 3 * K, 0, k)
    ensures |d00| == |d10| == |d20| == |d30| == F
    ensures ExtractSum(d00) == Dot(src, weight, off, 0, K) && ExtractSum(d10) == Dot(src, weight, off + K, 0, K)
    ensures ExtractSum(d20) == Dot(src, weight, off + 2 * K, 0, K) && ExtractSum(d30) == Dot(src, weight, off + 3 * K, 0, K)
  {
    var tail := ShiftedMask(16 + k - K);
    forall l: nat
      ensures LaneOn(tail, l) <==> l < K - k
    {
      TailLanes(k, K, l);
    }
    var s0 := MaskzLoadU(tail, src, k);
    d00 := RowTail(src, weight, off, k, K, tail, s0, a0);
    d10 := RowTail(src, weight, off + K, k, K, tail, s0, a1);
    d20 := RowTail(src, weight, off + 2 * K, k, K, tail, s0, a2);
    d30 := RowTail(src, weight, off + 3 * K, k, K, tail, s0, a3);
  }

  // ---------------------------------------------------------------------
  // The loads of the four-row kernel.

  /** A load of `width` consecutive cells of a row from `at` (two registers
      in the 32-step loop, one in the 16-step loop, the masked lanes in the
      last step). */
  datatype Span = Span(at: nat, width: nat)

  /** The loads of `for (; k < bound; k += step)`. */
  function StepLoads(k: nat, bound: nat, step: nat): seq<Span>
    requires step > 0
    decreases bound - k
  {
    if k < bound then [Span(k, step)] + StepLoads(k + step, bound, step) else []
  }

  /** The value of `k` when `for (; k < bound; k += step)` exits. */
  function StepExit(k: nat, bound: nat, step: nat): nat
    requires step > 0
    decreases bound - k
  {
    if k < bound then StepExit(k + step, bound, step) else k
  }

  /** The loads of one row of `SynetInnerProductLayerForward4` when its
      32-step loop runs while `k < pairBound`: the kernel as written passes
      `K16`, the intended bound is `K32`. */
  function Forward4Loads(K: nat, pairBound: nat): seq<Span>
  {
    var K32, K16 := AlignLo(K, 2 * F), AlignLo(K, F);
    var k1 := if K32 != 0 then StepExit(0, pairBound, 2 * F) else 0;
    var pairs := if K32 != 0 then StepLoads(0, pairBound, 2 * F) else [];
    var k2 := StepExit(k1, K16, F);
    pairs + StepLoads(k1, K16, F) + TailLoad(K, k2)
  }

  /** The masked step over `[k, K)`, when anything is left. */
  function TailLoad(K: nat, k: nat): seq<Span>
  {
    if k < K then [Span(k, K - k)] else []
  }

  /** `spans` are non-empty loads that cover `[from, to)` one after the
      other, with no gap, overlap or overrun. */
  predicate Tiles(spans: seq<Span>, from: nat, to: nat)
    decreases |spans|
  {
    if spans == [] then from == to
    else spans[0].at == from && spans[0].width > 0 && Tiles(spans[1..], from + spans[0].width, to)
  }

  /** No load of `spans` reaches past cell `K - 1`. */
  predicate WithinRow(spans: seq<Span>, K: nat)
  {
    forall i :: 0 <= i < |spans| ==> spans[i].at + spans[i].width <= K
  }

  /** A tiling of `[from, to)` loads nothing outside it. */
  lemma {:induction false} TilesInside(spans: seq<Span>, from: nat, to: nat)
    requires Tiles(spans, from, to)
    ensures WithinRow(spans, to)
    ensures forall i :: 0 <= i < |spans| ==> from <= spans[i].at
    decreases |spans|
  {
    if spans != [] {
      TilesInside(spans[1..], from + spans[0].width, to);
      forall i | 0 < i < |spans|
        ensures from <= spans[i].at && spans[i].at + spans[i].width <= to
      {
        assert spans[i] == spans[1..][i - 1];
      }
      if |spans| > 1 {
        assert spans[1] == spans[1..][0];
      } else {
        assert spans[1..] == [];
      }
    }
  }

  /** Tilings of adjacent ranges join. */
  lemma {:induction false} TilesAppend(a: seq<Span>, b: seq<Span>, from: nat, mid: nat, to: nat)
    requires Tiles(a, from, mid) && Tiles(b, mid, to)
    ensures Tiles(a + b, from, to)
    decreases |a|
  {
    if a == [] {
      assert a + b == b;
    } else {
      TilesAppend(a[1..], b, from + a[0].width, mid, to);
      assert (a + b)[1..] == a[1..] + b;
    }
  }

  /** A loop from one multiple of `step` to another tiles the range between
      them and exits at its bound. */
  lemma {:induction false} StepLoadsTile(k: nat, bound: nat, step: nat)
    requires step > 0 && k % step == 0 && bound % step == 0 && k <= bound
    ensures Tiles(StepLoads(k, bound, step), k, bound)
    ensures StepExit(k, bound, step) == bound
    decreases bound - k
  {
    if k < bound {
      Base.AlignedStep(k, bound, step);
      StepLoadsTile(k + step, bound, step);
    }
  }

  /** A loop whose bound is not a multiple of its step ends with a load that
      starts at the last multiple below the bound and runs past it. */
  lemma {:induction false} StepLoadsOvershoot(k: nat, last: nat, bound: nat, step: nat)
    requires step > 0 && k % step == 0 && last % step == 0 && k <= last < bound <= last + step
    ensures StepLoads(k, bound, step) == StepLoads(k, last, step) + [Span(last, step)]
    ensures StepExit(k, bound, step) == last + step
    decreases bound - k
  {
    if k < last {
      Base.AlignedStep(k, last, step);
      StepLoadsOvershoot(k + step, last, bound, step);
      assert StepLoads(k, bound, step) == [Span(k, step)] + StepLoads(k + step, bound, step);
    } else {
      assert StepLoads(k + step, bound, step) == [];
    }
  }

  /** When `K % 32` is below 16 the two loop bounds coincide, and when it is
      16 or more `K16` is `K32 + 16`. */
  lemma PairBounds(K: nat)
    ensures K % (2 * F) < F ==> AlignLo(K, F) == AlignLo(K, 2 * F)
    ensures K % (2 * F) >= F ==> AlignLo(K, F) == AlignLo(K, 2 * F) + F
  {
    var q, r := K / (2 * F), K % (2 * F);
    assert K == q * (2 * F) + r;
    if r < F {
      assert K == (2 * q) * F + r;
    } else {
      assert K == (2 * q + 1) * F + (r - F);
    }
  }

  /** With the intended bound `K32` the loads of every row tile `[0, K)`:
      each cell of the row is loaded once and nothing past it is. */
  lemma Forward4LoadsCorrected(K: nat)
    ensures Tiles(Forward4Loads(K, AlignLo(K, 2 * F)), 0, K)
    ensures WithinRow(Forward4Loads(K, AlignLo(K, 2 * F)), K)
  {
    var K32, K16 := AlignLo(K, 2 * F), AlignLo(K, F);
    PairBreakpoints(K);
    StepLoadsTile(0, K32, 2 * F);
    var pairs: seq<Span> := if K32 != 0 then StepLoads(0, K32, 2 * F) else [];
    assert Tiles(pairs, 0, K32);
    StepLoadsTile(K32, K16, F);
    var singles := StepLoads(K32, K16, F);
    var tail := TailLoad(K, K16);
    assert Forward4Loads(K, K32) == pairs + singles + tail;
    assert Tiles(tail, K16, K);
    TilesAppend(pairs, singles, 0, K32, K16);
    TilesAppend(pairs + singles, tail, 0, K16, K);
    TilesInside(pairs + singles + tail, 0, K);
  }

  /** With the written bound `K16`, whenever `K % 32` is 16 or more (and
      `K >= 32`, so the loop runs) the last load of every row is the pair
      of registers at `K32`, which ends `32 - K % 32` cells past `K`; no
      masked step follows. */
  lemma Forward4LoadsAsWritten(K: nat)
    requires K >= 2 * F && K % (2 * F) >= F
    ensures var loads := Forward4Loads(K, AlignLo(K, F));
            |loads| > 0 && loads[|loads| - 1] == Span(AlignLo(K, 2 * F), 2 * F)
            && AlignLo(K, 2 * F) + 2 * F == K + (2 * F - K % (2 * F)) > K
  {
    var K32, K16 := AlignLo(K, 2 * F), AlignLo(K, F);
    PairBounds(K);
    assert K32 != 0;
    StepLoadsOvershoot(0, K32, K16, 2 * F);
    var pairs := StepLoads(0, K16, 2 * F);
    assert pairs == StepLoads(0, K32, 2 * F) + [Span(K32, 2 * F)];
    assert StepLoads(K32 + 2 * F, K16, F) == [] && StepExit(K32 + 2 * F, K16, F) == K32 + 2 * F;
    assert Forward4Loads(K, K16) == pairs + [] + [];
  }

  /** For any other `K` the written bound is the intended one. */
  lemma Forward4LoadsAgree(K: nat)
    requires K < 2 * F || K % (2 * F) < F
    ensures Forward4Loads(K, AlignLo(K, F)) == Forward4Loads(K, AlignLo(K, 2 * F))
  {
    if K < 2 * F {
      assert AlignLo(K, 2 * F) == 0;
      assert Forward4Loads(K, AlignLo(K, F)) == StepLoads(0, AlignLo(K, F), F) + TailLoad(K, StepExit(0, AlignLo(K, F), F));
      assert Forward4Loads(K, 0) == StepLoads(0, AlignLo(K, F), F) + TailLoad(K, StepExit(0, AlignLo(K, F), F));
    } else {
      PairBounds(K);
    }
  }

  /** A row of 48 cells: the written loop loads `[32, 64)`; the intended one
      loads `[32, 48)` as a single register. */
  lemma Forward4Loads48()
    ensures Forward4Loads(48, AlignLo(48, F)) == [Span(0, 32), Span(32, 32)]
    ensures Forward4Loads(48, AlignLo(48, 2 * F)) == [Span(0, 32), Span(32, 16)]
  {
    Forward4LoadsAsWritten(48);
    assert AlignLo(48, F) == 48 && AlignLo(48, 2 * F) == 32;
    assert StepLoads(0, 48, 32) == [Span(0, 32)] + StepLoads(32, 48, 32);
    assert StepLoads(32, 48, 32) == [Span(32, 32)] + StepLoads(64, 48, 32);
    assert StepLoads(0, 32, 32) == [Span(0, 32)] + StepLoads(32, 32, 32);
    assert StepLoads(32, 48, 16) == [Span(32, 16)] + StepLoads(48, 48, 16);
  }

  // ---------------------------------------------------------------------
  // The layer.

  /** `SynetInnerProductLayerForward`: four outputs at a time while four are
      left, then one at a time; a missing bias is four zeros. */
  method InnerProductLayerForward(src: seq<real>, weight: seq<real>, bias: Option<seq<real>>, count: nat, size: nat, dst: array<real>)
    requires |src| >= size && |weight| >= count * size && dst.Length == count
    requires bias.Some? ==> |bias.value| >= count
    modifies dst
    ensures dst[..] == InnerProduct(src, weight, bias, count, size)
  {
    ghost var p := InnerProduct(src, weight, bias, count, size);
    var count4 := AlignLo(count, 4);
    var zero := [0.0, 0.0, 0.0, 0.0];
    var i := 0;
    while i < count4
      invariant i <= count4 && i % 4 == 0
      invariant forall r :: 0 <= r < i ==> dst[r] == p[r]
    {
      Base.AlignedStep(i, count4, 4);
      MulLe(i + 4, count, size);
      assert (i + 4) * size == i * size + 4 * size;
      var b := if bias.Some? then bias.value[i..] else zero;
      InnerProductForward4(src, weight, i * size, b, size, dst, i);
      assert (i + 1) * size == i * size + size && (i + 2) * size == i * size + 2 * size && (i + 3) * size == i * size + 3 * size;
      i := i + 4;
    }
    while i < count
      invariant i <= count
      invariant forall r :: 0 <= r < i ==> dst[r] == p[r]
    {
      MulLe(i + 1, count, size);
      var b := if bias.Some? then bias.value[i..] else zero;
      InnerProductForward1(src, weight, i * size, b, size, dst, i);
      i := i + 1;
    }
    assert dst[..] == p;
  }
}
