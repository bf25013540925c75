/** The AVX-512 per-channel kernels (`Simd::Avx512f`): bias add, scale, the
    single-output fused variants, PReLU and the range clamp. Channel-major and
    channel-last rows are swept by `AvxRows.VectorRow`; the packed NCHW16c
    kernels take one full register per position. Each driver is proved to
    leave in `dst` exactly what the scalar reference leaves. */
module AvxChannel {
  import opened Lanes
  import opened Layout
  import opened Formulas
  import opened Reference
  import opened AvxRows
  import Base

  // ---------------------------------------------------------------------
  // Sweeps.

  /** One vector row per channel. */
  method MajorSweep(src: seq<real>, dst: array<real>, channels: nat, spatial: nat, g: Cell)
    requires |src| == channels * spatial && dst.Length == |src|
    modifies dst
    ensures dst[..] == PerChannel(src, ChannelMajor, channels, spatial, g)
  {
    ghost var p := PerChannel(src, ChannelMajor, channels, spatial, g);
    var c := 0;
    while c < channels
      invariant c <= channels
      invariant c * spatial <= |src|
      invariant forall k :: 0 <= k < c * spatial ==> dst[k] == p[k]
    {
      Base.MajorRow(src, channels, spatial, g, c);
      VectorRow(src, c * spatial, dst, c * spatial, spatial, t => c, g);
      assert (c + 1) * spatial == c * spatial + spatial;
      c := c + 1;
    }
    assert dst[..] == p;
  }

  /** One vector row per position. */
  method LastSweep(src: seq<real>, dst: array<real>, channels: nat, spatial: nat, g: Cell)
    requires |src| == channels * spatial && dst.Length == |src|
    modifies dst
    ensures dst[..] == PerChannel(src, ChannelLast, channels, spatial, g)
  {
    ghost var p := PerChannel(src, ChannelLast, channels, spatial, g);
    var s := 0;
    while s < spatial
      invariant s <= spatial
      invariant s * channels <= |src|
      invariant forall k :: 0 <= k < s * channels ==> dst[k] == p[k]
    {
      Base.LastRow(src, channels, spatial, g, s);
      VectorRow(src, s * channels, dst, s * channels, channels, t => t, g);
      assert (s + 1) * channels == s * channels + channels;
      s := s + 1;
    }
    assert dst[..] == p;
  }

  /** The two vectorised orders. */
  method Channelwise(src: seq<real>, dst: array<real>, o: Order, channels: nat, spatial: nat, g: Cell)
    requires o == ChannelMajor || o == ChannelLast
    requires |src| == channels * spatial && dst.Length == |src|
    modifies dst
    ensures dst[..] == PerChannel(src, o, channels, spatial, g)
  {
    if o == ChannelMajor {
      MajorSweep(src, dst, channels, spatial, g);
    } else {
      LastSweep(src, dst, channels, spatial, g);
    }
  }

  /** The first `m` cells of `d` are those of `p`. */
  ghost predicate PrefixAgrees(d: seq<real>, p: seq<real>, m: nat)
  {
    m <= |d| && m <= |p| && forall k :: 0 <= k < m ==> d[k] == p[k]
  }

  /** NCHW16c: blocks of F channels, each swept four positions per step and
      then one at a time, one full register per position. */
  method Packed16Sweep(src: seq<real>, dst: array<real>, channels: nat, spatial: nat, g: Cell)
    requires channels % F == 0 && |src| == channels * spatial && dst.Length == |src|
    modifies dst
    ensures dst[..] == PerChannel(src, Packed(F), channels, spatial, g)
  {
    ghost var p := PerChannel(src, Packed(F), channels, spatial, g);
    PackedSize(F, channels, spatial);
    var b := 0;
    while b < channels / F
      invariant b <= channels / F
      invariant PrefixAgrees(dst[..], p, b * spatial * F)
    {
      Packed16Block(src, dst, channels, spatial, g, b, p);
      assert b * spatial * F + spatial * F == (b + 1) * spatial * F;
      b := b + 1;
    }
    assert dst[..] == p;
  }

  /** Block `b`: positions up to `AlignLo(spatial, 4)` four at a time, then
      the rest one at a time. */
  method Packed16Block(src: seq<real>, dst: array<real>, channels: nat, spatial: nat, g: Cell, b: nat, ghost p: seq<real>)
    requires channels % F == 0 && |src| == channels * spatial && dst.Length == |src|
    requires b < channels / F && p == PerChannel(src, Packed(F), channels, spatial, g)
    requires PrefixAgrees(dst[..], p, b * spatial * F)
    modifies dst
    ensures PrefixAgrees(dst[..], p, b * spatial * F + spatial * F)
  {
    var spatial4 := AlignLo(spatial, 4);
    var base := b * spatial * F;
    var s, r := 0, base;
    while s < spatial4
      invariant s <= spatial4 && s % 4 == 0 && r == base + s * F
      invariant PrefixAgrees(dst[..], p, r)
    {
      Base.AlignedStep(s, spatial4, 4);
      Packed16Quad(src, dst, channels, spatial, g, b, s, r, p);
      assert r + 4 * F == base + (s + 4) * F;
      s, r := s + 4, r + 4 * F;
    }
    while s < spatial
      invariant s <= spatial && r == base + s * F
      invariant PrefixAgrees(dst[..], p, r)
    {
      Packed16Position(src, dst, channels, spatial, g, b, s, r, p);
      assert r + F == base + (s + 1) * F;
      s, r := s + 1, r + F;
    }
  }

  /** Positions `s .. s + 3` of block `b`, one unrolled step. */
  method Packed16Quad(src: seq<real>, dst: array<real>, channels: nat, spatial: nat, g: Cell, b: nat, s: nat, r: nat, ghost p: seq<real>)
    requires channels % F == 0 && |src| == channels * spatial && dst.Length == |src|
    requires b < channels / F && s + 4 <= spatial && p == PerChannel(src, Packed(F), channels, spatial, g)
    requires r == b * spatial * F + s * F && PrefixAgrees(dst[..], p, r)
    modifies dst
    ensures PrefixAgrees(dst[..], p, r + 4 * F)
  {
    ghost var base := b * spatial * F;
    assert r + F == base + (s + 1) * F && r + 2 * F == base + (s + 2) * F && r + 3 * F == base + (s + 3) * F;
    Packed16Position(src, dst, channels, spatial, g, b, s, r, p);
    Packed16Position(src, dst, channels, spatial, g, b, s + 1, r + F, p);
    Packed16Position(src, dst, channels, spatial, g, b, s + 2, r + 2 * F, p);
    Packed16Position(src, dst, channels, spatial, g, b, s + 3, r + 3 * F, p);
  }

  /** Position `s` of block `b`: one full register extends the agreeing
      prefix by F cells. */
  method Packed16Position(src: seq<real>, dst: array<real>, channels: nat, spatial: nat, g: Cell, b: nat, s: nat, r: nat, ghost p: seq<real>)
    requires channels % F == 0 && |src| == channels * spatial && dst.Length == |src|
    requires b < channels / F && s < spatial && p == PerChannel(src, Packed(F), channels, spatial, g)
    requires r == b * spatial * F + s * F && PrefixAgrees(dst[..], p, r)
    modifies dst
    ensures PrefixAgrees(dst[..], p, r + F)
  {
    Base.PackedRow(src, F, channels, spatial, g, b, s);
    ghost var d0 := dst[..];
    assert Base.RowWritten(dst[..], d0, src, r, r, 0, t => b * F + t, g);
    VectorStep(src, r, dst, r, 0, FullMask, F, t => b * F + t, g, d0);
  }

  // ---------------------------------------------------------------------
  // The format dispatchers.

  /** Where a format dispatcher sends a call: to its own vector code, to a
      kernel of another instruction set that is not part of this model (SSE
      for NCHW4c; AVX or AVX2 for NCHW8c), or to the scalar dispatcher, which
      supports none of the formats that reach it. */
  datatype Outcome = Computed | Delegated | Unsupported

  /** The route of the bias-add and scale dispatchers. */
  function Route(format: TensorFormat, nchwCompatible: bool, nhwcCompatible: bool): Outcome
  {
    if nchwCompatible || nhwcCompatible || format == Nchw16c then Computed
    else if format == Nchw4c || format == Nchw8c then Delegated
    else Unsupported
  }

  /** The vector routes take exactly the layout the scalar dispatcher takes,
      and only vectorised layouts; the other routes are the packed formats
      other instruction sets handle, or the formats the scalar dispatcher
      rejects too. */
  lemma RouteAgreesWithBase(format: TensorFormat, nchwCompatible: bool, nhwcCompatible: bool)
    ensures var o := Base.BaseOrder(format, nchwCompatible, nhwcCompatible);
      && (Route(format, nchwCompatible, nhwcCompatible) == Computed <==>
            o.Some? && (o.value == ChannelMajor || o.value == ChannelLast || o.value == Packed(F)))
      && (Route(format, nchwCompatible, nhwcCompatible) == Delegated <==>
            o == Some(Packed(4)) || o == Some(Packed(8)))
      && (Route(format, nchwCompatible, nhwcCompatible) == Unsupported <==> o == None)
  {
  }

  // ---------------------------------------------------------------------
  // Bias.

  /** `dst[c·spatial + s] += bias[c]`, a broadcast register per channel. */
  method AddBiasNchw(bias: seq<real>, channels: nat, spatial: nat, dst: array<real>)
    requires |bias| >= channels && dst.Length == channels * spatial
    modifies dst
    ensures dst[..] == PerChannel(old(dst[..]), ChannelMajor, channels, spatial, BiasCell(bias))
  {
    MajorSweep(dst[..], dst, channels, spatial, BiasCell(bias));
  }

  /** `dst[s·channels + c] += bias[c]`, the bias loaded under the same mask. */
  method AddBiasNhwc(bias: seq<real>, channels: nat, spatial: nat, dst: array<real>)
    requires |bias| >= channels && dst.Length == channels * spatial
    modifies dst
    ensures dst[..] == PerChannel(old(dst[..]), ChannelLast, channels, spatial, BiasCell(bias))
  {
    LastSweep(dst[..], dst, channels, spatial, BiasCell(bias));
  }

  /** NCHW16c: one bias register per block of F channels. */
  method AddBiasNchw16c(bias: seq<real>, channels: nat, spatial: nat, dst: array<real>)
    requires channels % F == 0 && |bias| >= channels && dst.Length == channels * spatial
    modifies dst
    ensures dst[..] == PerChannel(old(dst[..]), Packed(F), channels, spatial, BiasCell(bias))
  {
    Packed16Sweep(dst[..], dst, channels, spatial, BiasCell(bias));
  }

  /** The bias-add dispatcher. What it computes is what the scalar
      dispatcher computes for the same format. */
  method AddBias(bias: seq<real>, channels: nat, spatial: nat, dst: array<real>,
                 format: TensorFormat, nchwCompatible: bool, nhwcCompatible: bool) returns (outcome: Outcome)
    requires |bias| >= channels && dst.Length == channels * spatial
    requires Base.BaseOrder(format, nchwCompatible, nhwcCompatible).Some? ==>
      WellFormed(Base.BaseOrder(format, nchwCompatible, nhwcCompatible).value, channels)
    modifies dst
    ensures outcome == Route(format, nchwCompatible, nhwcCompatible)
    ensures outcome == Computed ==>
      dst[..] == PerChannel(old(dst[..]), Base.BaseOrder(format, nchwCompatible, nhwcCompatible).value, channels, spatial, BiasCell(bias))
    ensures outcome != Computed ==> dst[..] == old(dst[..])
  {
    outcome := Computed;
    if nchwCompatible {
      AddBiasNchw(bias, channels, spatial, dst);
    } else if nhwcCompatible {
      AddBiasNhwc(bias, channels, spatial, dst);
    } else if format == Nchw4c || format == Nchw8c {
      outcome := Delegated;
    } else if format == Nchw16c {
      AddBiasNchw16c(bias, channels, spatial, dst);
    } else {
      var supported := Base.AddBias(bias, channels, spatial, dst, format, nchwCompatible, nhwcCompatible);
      assert !supported;
      outcome := Unsupported;
    }
  }

  // ---------------------------------------------------------------------
  // Scale.

  /** `dst[c·spatial + s] = src·scale[c] (+ bias[c])`. */
  method ScaleLayerForwardNchw(src: seq<real>, scale: seq<real>, bias: Option<seq<real>>, channels: nat, spatial: nat, dst: array<real>)
    requires |src| == channels * spatial && dst.Length == |src|
    requires |scale| >= channels && (bias.Some? ==> |bias.value| >= channels)
    modifies dst
    ensures dst[..] == PerChannel(src, ChannelMajor, channels, spatial, ScaleCell(scale, bias))
  {
    MajorSweep(src, dst, channels, spatial, ScaleCell(scale, bias));
  }

  /** `dst[s·channels + c] = src·scale[c] (+ bias[c])`; three channels take
      the dedicated kernel. */
  method ScaleLayerForwardNhwc(src: seq<real>, scale: seq<real>, bias: Option<seq<real>>, channels: nat, spatial: nat, dst: array<real>)
    requires |src| == channels * spatial && dst.Length == |src|
    requires |scale| >= channels && (bias.Some? ==> |bias.value| >= channels)
    modifies dst
    ensures dst[..] == PerChannel(src, ChannelLast, channels, spatial, ScaleCell(scale, bias))
  {
    if channels == 3 {
      ScaleLayerForwardNhwc3(src, scale, bias, spatial, dst);
    } else {
      LastSweep(src, dst, channels, spatial, ScaleCell(scale, bias));
    }
  }

  /** `_scale[i·3 + c] = v[c]` for `i < F`: three registers whose lane `l` of
      register `K` holds `v[(K·F + l) mod 3]`. */
  method Replicate3(v: seq<real>) returns (p: seq<real>)
    requires |v| >= 3
    ensures |p| == 3 * F
    ensures forall i :: 0 <= i < 3 * F ==> p[i] == v[i % 3]
  {
    var a := new real[3 * F];
    for i := 0 to F
      invariant forall k :: 0 <= k < 3 * i ==> a[k] == v[k % 3]
    {
      for c := 0 to 3
        invariant forall k :: 0 <= k < 3 * i + c ==> a[k] == v[k % 3]
      {
        assert (i * 3 + c) % 3 == c;
        a[i * 3 + c] := v[c];
      }
    }
    p := a[..];
  }

  /** The channel pattern of `v` over `3·F` lanes. */
  ghost predicate Pattern3(p: seq<real>, v: seq<real>)
  {
    |v| >= 3 && |p| == 3 * F && forall i :: 0 <= i < 3 * F ==> p[i] == v[i % 3]
  }

  /** Cell `i` of a three-channel channel-last tensor, channel `i mod 3`. */
  function Nhwc3Cell(src: seq<real>, scale: seq<real>, bias: Option<seq<real>>, i: nat): real
  {
    ScaleCell(scale, bias)(At(src, i), i, i % 3)
  }

  /** `d` is `d0` with its first `m` cells scaled. */
  ghost predicate Nhwc3Written(d: seq<real>, d0: seq<real>, src: seq<real>, scale: seq<real>, bias: Option<seq<real>>, m: nat)
  {
    |d| == |d0| && forall i :: 0 <= i < |d| ==> d[i] == if i < m then Nhwc3Cell(src, scale, bias, i) else d0[i]
  }

  /** Three channels, channel-last: the whole tensor is one row of
      `3·spatial` cells whose cell `t` is channel `t mod 3`. Three registers
      per step of 3·F cells up to `3·AlignLo(spatial, F)`, each with its own
      replicated scale (and bias) pattern; then three scalar cells per
      position. */
  method ScaleLayerForwardNhwc3(src: seq<real>, scale: seq<real>, bias: Option<seq<real>>, spatial: nat, dst: array<real>)
    requires |src| == 3 * spatial && dst.Length == |src|
    requires |scale| >= 3 && (bias.Some? ==> |bias.value| >= 3)
    modifies dst
    ensures dst[..] == PerChannel(src, ChannelLast, 3, spatial, ScaleCell(scale, bias))
  {
    ghost var d0 := dst[..];
    var spatial3 := spatial * 3;
    var spatialF3 := AlignLo(spatial, F) * 3;
    var s := 0;
    if spatialF3 > 0 {
      s := Nhwc3Vectors(src, scale, bias, spatialF3, dst, d0);
    }
    while s < spatial3
      invariant spatialF3 <= s <= spatial3 && s % 3 == 0
      invariant Nhwc3Written(dst[..], d0, src, scale, bias, s)
    {
      Base.AlignedStep(s, spatial3, 3);
      Nhwc3Position(src, dst, s, scale, bias, d0);
      s := s + 3;
    }
    Nhwc3Placement(dst[..], d0, src, scale, bias, spatial);
  }

  /** The vector loop of the three-channel kernel: the scale (and bias)
      patterns, then three registers per step up to `spatialF3`. */
  method Nhwc3Vectors(src: seq<real>, scale: seq<real>, bias: Option<seq<real>>, spatialF3: nat, dst: array<real>, ghost d0: seq<real>)
      returns (s: nat)
    requires spatialF3 % (3 * F) == 0 && spatialF3 <= |src| && dst.Length == |src|
    requires |scale| >= 3 && (bias.Some? ==> |bias.value| >= 3)
    requires dst[..] == d0
    modifies dst
    ensures s == spatialF3 && s % 3 == 0
    ensures Nhwc3Written(dst[..], d0, src, scale, bias, s)
  {
    var ps := Replicate3(scale);
    var pb: Option<seq<real>> := None;
    if bias.Some? {
      var b := Replicate3(bias.value);
      pb := Some(b);
    }
    s := 0;
    while s < spatialF3
      invariant s <= spatialF3 && s % (3 * F) == 0
      invariant Nhwc3Written(dst[..], d0, src, scale, bias, s)
    {
      Base.AlignedStep(s, spatialF3, 3 * F);
      Nhwc3Register(src, dst, s, 0, ps, pb, scale, bias, d0);
      Nhwc3Register(src, dst, s, 1, ps, pb, scale, bias, d0);
      Nhwc3Register(src, dst, s, 2, ps, pb, scale, bias, d0);
      s := s + 3 * F;
    }
  }

  /** Lane `o` of a three-register step at a position boundary `s` is cell
      `s + o` of the tensor. */
  lemma Nhwc3Lane(src: seq<real>, s: nat, o: nat, ps: seq<real>, pb: Option<seq<real>>, scale: seq<real>, bias: Option<seq<real>>)
    requires s % 3 == 0 && o < 3 * F
    requires Pattern3(ps, scale) && pb.Some? == bias.Some? && (pb.Some? ==> Pattern3(pb.value, bias.value))
    ensures (if pb.Some? then ScaleShift(At(src, s + o), At(ps, o), At(pb.value, o)) else At(src, s + o) * At(ps, o))
         == Nhwc3Cell(src, scale, bias, s + o)
  {
    var c := (s + o) % 3;
    assert c == o % 3;
    assert At(ps, o) == At(scale, c);
    if pb.Some? {
      assert At(pb.value, o) == At(bias.value, c);
    }
  }

  /** Register `K` of a step at `s`: lanes `s + K·F + l` get
      `src·_scale[K·F + l] (+ _bias[K·F + l])`. */
  method Nhwc3Register(src: seq<real>, dst: array<real>, s: nat, K: nat, ps: seq<real>, pb: Option<seq<real>>,
                       scale: seq<real>, bias: Option<seq<real>>, ghost d0: seq<real>)
    requires s % 3 == 0 && K < 3 && s + K * F + F <= |src| && dst.Length == |src|
    requires Pattern3(ps, scale) && pb.Some? == bias.Some? && (pb.Some? ==> Pattern3(pb.value, bias.value))
    requires Nhwc3Written(dst[..], d0, src, scale, bias, s + K * F)
    modifies dst
    ensures Nhwc3Written(dst[..], d0, src, scale, bias, s + K * F + F)
  {
    var at := s + K * F;
    ghost var before := dst[..];
    var f := (x: real, o: nat) => if pb.Some? then ScaleShift(At(src, s + o), At(ps, o), At(pb.value, o)) else At(src, s + o) * At(ps, o);
    MaskedUpdate(dst, at, FullMask, K * F, f);
    forall i | 0 <= i < dst.Length
      ensures dst[i] == if i < at + F then Nhwc3Cell(src, scale, bias, i) else d0[i]
    {
      if at <= i < at + F {
        assert LaneOn(FullMask, i - at);
        Nhwc3Lane(src, s, i - s, ps, pb, scale, bias);
      } else {
        assert dst[i] == before[i];
      }
    }
  }

  /** The scalar remainder: `dst[s + c] = src[s + c]·scale[c] (+ bias[c])`
      for `c < 3`. */
  method Nhwc3Position(src: seq<real>, dst: array<real>, s: nat, scale: seq<real>, bias: Option<seq<real>>, ghost d0: seq<real>)
    requires s % 3 == 0 && s + 3 <= |src| && dst.Length == |src|
    requires |scale| >= 3 && (bias.Some? ==> |bias.value| >= 3)
    requires Nhwc3Written(dst[..], d0, src, scale, bias, s)
    modifies dst
    ensures Nhwc3Written(dst[..], d0, src, scale, bias, s + 3)
  {
    ghost var before := dst[..];
    if bias.Some? {
      dst[s + 0] := src[s + 0] * scale[0] + bias.value[0];
      dst[s + 1] := src[s + 1] * scale[1] + bias.value[1];
      dst[s + 2] := src[s + 2] * scale[2] + bias.value[2];
    } else {
      dst[s + 0] := src[s + 0] * scale[0];
      dst[s + 1] := src[s + 1] * scale[1];
      dst[s + 2] := src[s + 2] * scale[2];
    }
    var q := s / 3;
    assert s == q * 3 + s % 3;
    forall i | 0 <= i < dst.Length
      ensures dst[i] == if i < s + 3 then Nhwc3Cell(src, scale, bias, i) else d0[i]
    {
      if s <= i < s + 3 {
        var c := i - s;
        DivMod(i, q, c, 3);
        assert dst[i] == if bias.Some? then src[i] * scale[c] + bias.value[c] else src[i] * scale[c];
        assert At(src, i) == src[i] && At(scale, c) == scale[c];
        assert bias.Some? ==> At(bias.value, c) == bias.value[c];
      } else {
        assert dst[i] == before[i];
      }
    }
  }

  /** A channel-last tensor of three channels is the row whose cell `i` is
      channel `i mod 3`. */
  lemma Nhwc3Placement(d: seq<real>, d0: seq<real>, src: seq<real>, scale: seq<real>, bias: Option<seq<real>>, spatial: nat)
    requires |src| == 3 * spatial
    requires Nhwc3Written(d, d0, src, scale, bias, 3 * spatial) && |d0| == |src|
    ensures d == PerChannel(src, ChannelLast, 3, spatial, ScaleCell(scale, bias))
  {
    var p := PerChannel(src, ChannelLast, 3, spatial, ScaleCell(scale, bias));
    forall k | 0 <= k < |d|
      ensures d[k] == p[k]
    {
      assert ChannelOf(ChannelLast, k, 3, spatial) == k % 3;
    }
  }

  /** NCHW16c scale: one scale (and bias) register per block of F channels. */
  method ScaleLayerForwardNchw16c(src: seq<real>, scale: seq<real>, bias: Option<seq<real>>, channels: nat, spatial: nat, dst: array<real>)
    requires channels % F == 0 && |src| == channels * spatial && dst.Length == |src|
    requires |scale| >= channels && (bias.Some? ==> |bias.value| >= channels)
    modifies dst
    ensures dst[..] == PerChannel(src, Packed(F), channels, spatial, ScaleCell(scale, bias))
  {
    Packed16Sweep(src, dst, channels, spatial, ScaleCell(scale, bias));
  }

  /** The scale dispatcher, routed as the bias add. */
  method ScaleLayerForward(src: seq<real>, scale: seq<real>, bias: Option<seq<real>>, channels: nat, spatial: nat, dst: array<real>,
                           format: TensorFormat, nchwCompatible: bool, nhwcCompatible: bool) returns (outcome: Outcome)
    requires |src| == channels * spatial && dst.Length == |src|
    requires |scale| >= channels && (bias.Some? ==> |bias.value| >= channels)
    requires Base.BaseOrder(format, nchwCompatible, nhwcCompatible).Some? ==>
      WellFormed(Base.BaseOrder(format, nchwCompatible, nhwcCompatible).value, channels)
    modifies dst
    ensures outcome == Route(format, nchwCompatible, nhwcCompatible)
    ensures outcome == Computed ==>
      dst[..] == PerChannel(src, Base.BaseOrder(format, nchwCompatible, nhwcCompatible).value, channels, spatial, ScaleCell(scale, bias))
    ensures outcome != Computed ==> dst[..] == old(dst[..])
  {
    outcome := Computed;
    if nchwCompatible {
      ScaleLayerForwardNchw(src, scale, bias, channels, spatial, dst);
    } else if nhwcCompatible {
      ScaleLayerForwardNhwc(src, scale, bias, channels, spatial, dst);
    } else if format == Nchw4c || format == Nchw8c {
      outcome := Delegated;
    } else if format == Nchw16c {
      ScaleLayerForwardNchw16c(src, scale, bias, channels, spatial, dst);
    } else {
      var supported := Base.ScaleLayerForward(src, scale, bias, channels, spatial, dst, format, nchwCompatible, nhwcCompatible);
      assert !supported;
      outcome := Unsupported;
    }
  }

  // ---------------------------------------------------------------------
  // Fused variants 0, 1, 2, 3, 8; PReLU; the range clamp.

  /** Variant 0: parameters loaded per lane in the channel-last order,
      broadcast per channel in the channel-major order. */
  method FusedLayerForward0(src: seq<real>, bias: seq<real>, scale: seq<real>, count: nat, size: nat, dst: array<real>, trans: bool)
    requires |src| == count * size && dst.Length == |src| && |bias| >= count && |scale| >= count
    modifies dst
    ensures dst[..] == PerChannel(src, FusedOrder(trans, count, size), count, size, Fused0Cell(bias, scale))
  {
    Channelwise(src, dst, FusedOrder(trans, count, size), count, size, Fused0Cell(bias, scale));
  }

  method FusedLayerForward1(src: seq<real>, bias0: seq<real>, scale1: seq<real>, bias1: seq<real>, count: nat, size: nat,
                            dst: array<real>, trans: bool)
    requires |src| == count * size && dst.Length == |src|
    requires |bias0| >= count && |scale1| >= count && |bias1| >= count
    modifies dst
    ensures dst[..] == PerChannel(src, FusedOrder(trans, count, size), count, size, Fused1Cell(bias0, scale1, bias1))
  {
    Channelwise(src, dst, FusedOrder(trans, count, size), count, size, Fused1Cell(bias0, scale1, bias1));
  }

  /** Variant 2: the slope register is `slope[0]` broadcast. */
  method FusedLayerForward2(src: seq<real>, scale: seq<real>, bias: seq<real>, count: nat, size: nat, slope: seq<real>,
                            dst: array<real>, trans: bool)
    requires |src| == count * size && dst.Length == |src|
    requires |scale| >= count && |bias| >= count && |slope| >= 1
    modifies dst
    ensures dst[..] == PerChannel(src, FusedOrder(trans, count, size), count, size, Fused2Cell(scale, bias, slope[0]))
  {
    Channelwise(src, dst, FusedOrder(trans, count, size), count, size, Fused2Cell(scale, bias, slope[0]));
  }

  method FusedLayerForward3(src: seq<real>, bias: seq<real>, scale: seq<real>, count: nat, size: nat, dst: array<real>, trans: bool)
    requires |src| == count * size && dst.Length == |src| && |bias| >= count && |scale| >= count
    modifies dst
    ensures dst[..] == PerChannel(src, FusedOrder(trans, count, size), count, size, Fused3Cell(bias, scale))
  {
    Channelwise(src, dst, FusedOrder(trans, count, size), count, size, Fused3Cell(bias, scale));
  }

  method FusedLayerForward8(src0: seq<real>, src1: seq<real>, src2: seq<real>, count: nat, size: nat, dst: array<real>, trans: bool)
    requires |src0| == count * size && |src1| == |src0| && dst.Length == |src0| && |src2| >= count
    modifies dst
    ensures dst[..] == PerChannel(src0, FusedOrder(trans, count, size), count, size, Fused8Cell(src1, src2))
  {
    Channelwise(src0, dst, FusedOrder(trans, count, size), count, size, Fused8Cell(src1, src2));
  }

  /** PReLU. The channel-last order is the common sweep; the channel-major
      order is the sweep as the source writes it, with the tail step guarded
      by the channel counter. */
  method PreluLayerForward(src: seq<real>, slope: seq<real>, count: nat, size: nat, dst: array<real>, trans: bool)
    requires |src| == count * size && dst.Length == |src| && |slope| >= count
    modifies dst
    ensures dst[..] == PerChannel(src, FusedOrder(trans, count, size), count, size, PreluCell(slope))
  {
    if FusedOrder(trans, count, size) == ChannelLast {
      LastSweep(src, dst, count, size, PreluCell(slope));
    } else {
      PreluMajorAsWritten(src, slope, count, size, dst);
    }
  }

  /** The channel-major PReLU sweep as written: every row ends with the
      masked step, whose mask is empty when `size` is a multiple of F. */
  method PreluMajorAsWritten(src: seq<real>, slope: seq<real>, count: nat, size: nat, dst: array<real>)
    requires |src| == count * size && dst.Length == |src| && |slope| >= count
    modifies dst
    ensures dst[..] == PerChannel(src, ChannelMajor, count, size, PreluCell(slope))
  {
    ghost var p := PerChannel(src, ChannelMajor, count, size, PreluCell(slope));
    var i := 0;
    while i < count
      invariant i <= count
      invariant i * size <= |src|
      invariant forall k :: 0 <= k < i * size ==> dst[k] == p[k]
    {
      Base.MajorRow(src, count, size, PreluCell(slope), i);
      VectorRowAlwaysTail(src, i * size, dst, i * size, size, t => i, PreluCell(slope));
      assert (i + 1) * size == i * size + size;
      i := i + 1;
    }
    assert dst[..] == p;
  }

  /** The guard of the channel-major PReLU tail step tests the channel
      counter, which the enclosing loop keeps below `count`, so the step
      always runs. When `size` is a multiple of F the F loop has covered the
      row and the step gets the mask `__mmask16(-1) >> F`, which is empty: it
      reads and writes nothing, and the row is exact either way
      (`PreluMajorAsWritten`). */
  lemma PreluTailMaskEmpty(size: nat)
    requires size % F == 0
    ensures AlignLo(size, F) == size
    ensures ShiftedMask(F + AlignLo(size, F) - size) == 0
  {
  }

  /** `dst[i] = min(max(lower, src[i]), upper)`, swept as one row; the
      source asserts `lower <= upper`. */
  method RestrictRangeForward(src: seq<real>, lower: real, upper: real, dst: array<real>)
    requires lower <= upper && dst.Length == |src|
    modifies dst
    ensures dst[..] == RestrictRange(src, lower, upper)
  {
    VectorRow(src, 0, dst, 0, |src|, t => 0, (x, k, c) => Restrict(x, lower, upper));
  }
}
