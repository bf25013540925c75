/** The scalar reference kernels (`Simd::Base`): nested loops over a row at a
    time, the inner loops unrolled by four where the source unrolls them. Each
    kernel is proved to leave in `dst` exactly the sequence its `Reference`
    function describes. */
module Base {
  import opened Lanes
  import opened Layout
  import opened Formulas
  import opened Reference

  // ---------------------------------------------------------------------
  // Rows.

  /** `d` is `d0` with the `n` cells at `at` replaced: cell `at + t` holds `g`
      of source cell `from + t`, which belongs to channel `ch(t)`. */
  ghost predicate RowWritten(d: seq<real>, d0: seq<real>, src: seq<real>, from: nat, at: nat, n: nat, ch: nat -> nat, g: Cell)
  {
    |d| == |d0| &&
    forall k :: 0 <= k < |d| ==>
      d[k] == if at <= k < at + n then g(At(src, from + (k - at)), from + (k - at), ch(k - at)) else d0[k]
  }

  /** One row, cell by cell: the inner loop of the packed (NCHWxc) kernels and
      of fused variant 9. */
  method PlainRow(src: seq<real>, from: nat, dst: array<real>, at: nat, n: nat, ch: nat -> nat, g: Cell)
    requires from + n <= |src| && at + n <= dst.Length
    modifies dst
    ensures RowWritten(dst[..], old(dst[..]), src, from, at, n, ch, g)
  {
    ghost var d0 := dst[..];
    var t := 0;
    while t < n
      invariant t <= n
      invariant RowWritten(dst[..], d0, src, from, at, t, ch, g)
    {
      WriteCell(src, from, dst, at, t, ch, g, d0);
      t := t + 1;
    }
  }

  /** `dst[at + t] = g(src[from + t], from + t, ch(t))`: the row written up to
      `t` is then written up to `t + 1`. */
  method WriteCell(src: seq<real>, from: nat, dst: array<real>, at: nat, t: nat, ch: nat -> nat, g: Cell, ghost d0: seq<real>)
    requires from + t < |src| && at + t < dst.Length
    requires RowWritten(dst[..], d0, src, from, at, t, ch, g)
    modifies dst
    ensures RowWritten(dst[..], d0, src, from, at, t + 1, ch, g)
  {
    dst[at + t] := g(src[from + t], from + t, ch(t));
  }

  /** One row, four cells per step up to `AlignLo(n, 4)`, then one at a time:
      the inner loop of every channel-major and channel-last kernel. */
  method Unrolled4Row(src: seq<real>, from: nat, dst: array<real>, at: nat, n: nat, ch: nat -> nat, g: Cell)
    requires from + n <= |src| && at + n <= dst.Length
    modifies dst
    ensures RowWritten(dst[..], old(dst[..]), src, from, at, n, ch, g)
  {
    ghost var d0 := dst[..];
    var aligned := AlignLo(n, 4);
    var t := 0;
    while t < aligned
      invariant t <= aligned && t % 4 == 0
      invariant RowWritten(dst[..], d0, src, from, at, t, ch, g)
    {
      AlignedStep(t, aligned, 4);
      WriteCell(src, from, dst, at, t, ch, g, d0);
      WriteCell(src, from, dst, at, t + 1, ch, g, d0);
      WriteCell(src, from, dst, at, t + 2, ch, g, d0);
      WriteCell(src, from, dst, at, t + 3, ch, g, d0);
      t := t + 4;
    }
    while t < n
      invariant t <= n
      invariant RowWritten(dst[..], d0, src, from, at, t, ch, g)
    {
      WriteCell(src, from, dst, at, t, ch, g, d0);
      t := t + 1;
    }
  }

  /** Below an aligned bound, an aligned index has a whole step left. */
  lemma AlignedStep(t: nat, aligned: nat, step: nat)
    requires step > 0 && t % step == 0 && aligned % step == 0 && t < aligned
    ensures t + step <= aligned && (t + step) % step == 0
  {
    var q, r := t / step, aligned / step;
    assert t == q * step && aligned == r * step;
    assert q < r by {
      if r <= q {
        MulLe(r, q, step);
      }
    }
    MulLe(q + 1, r, step);
    assert t + step == (q + 1) * step;
    MultipleMod(q + 1, step);
  }

  // ---------------------------------------------------------------------
  // Per-channel kernels.

  /** Row `c` of a channel-major tensor is channel `c`. */
  lemma MajorRow(src: seq<real>, channels: nat, spatial: nat, g: Cell, c: nat)
    requires |src| == channels * spatial && c < channels
    ensures c * spatial + spatial <= |src|
    ensures forall k :: c * spatial <= k < c * spatial + spatial ==>
      PerChannel(src, ChannelMajor, channels, spatial, g)[k] == g(src[k], k, c)
  {
    MulLe(c + 1, channels, spatial);
    forall k | c * spatial <= k < c * spatial + spatial
      ensures PerChannel(src, ChannelMajor, channels, spatial, g)[k] == g(src[k], k, c)
    {
      PerChannelPlacement(src, ChannelMajor, channels, spatial, g, c, k - c * spatial);
    }
  }

  /** Row `s` of a channel-last tensor holds channel `t` at offset `t`. */
  lemma LastRow(src: seq<real>, channels: nat, spatial: nat, g: Cell, s: nat)
    requires |src| == channels * spatial && s < spatial
    ensures s * channels + channels <= |src|
    ensures forall k :: s * channels <= k < s * channels + channels ==>
      PerChannel(src, ChannelLast, channels, spatial, g)[k] == g(src[k], k, k - s * channels)
  {
    MulLe(s + 1, spatial, channels);
    forall k | s * channels <= k < s * channels + channels
      ensures PerChannel(src, ChannelLast, channels, spatial, g)[k] == g(src[k], k, k - s * channels)
    {
      PerChannelPlacement(src, ChannelLast, channels, spatial, g, k - s * channels, s);
    }
  }

  /** Position `s` of block `b` of a packed tensor holds channel `b·n + t` at
      offset `t`. */
  lemma PackedRow(src: seq<real>, n: nat, channels: nat, spatial: nat, g: Cell, b: nat, s: nat)
    requires n > 0 && channels % n == 0 && |src| == channels * spatial
    requires b < channels / n && s < spatial
    ensures b * spatial * n + s * n + n <= |src|
    ensures forall k :: b * spatial * n + s * n <= k < b * spatial * n + s * n + n ==>
      PerChannel(src, Packed(n), channels, spatial, g)[k] == g(src[k], k, b * n + (k - (b * spatial * n + s * n)))
  {
    PackedRowInside(n, channels, spatial, b, s);
    var r := b * spatial * n + s * n;
    forall k | r <= k < r + n
      ensures PerChannel(src, Packed(n), channels, spatial, g)[k] == g(src[k], k, b * n + (k - r))
    {
      PackedCell(src, n, channels, spatial, g, b, s, k - r);
    }
  }

  /** The cells of one packed position lie inside the tensor. */
  lemma PackedRowInside(n: nat, channels: nat, spatial: nat, b: nat, s: nat)
    requires n > 0 && channels % n == 0 && b < channels / n && s < spatial
    ensures b * spatial * n + s * n + n <= channels * spatial
  {
    PackedSize(n, channels, spatial);
    RowInside(s, n - 1, n, spatial);
    MulLe(b + 1, channels / n, spatial * n);
  }

  /** Offset `t` of position `s` in block `b` is channel `b·n + t`. */
  lemma PackedCell(src: seq<real>, n: nat, channels: nat, spatial: nat, g: Cell, b: nat, s: nat, t: nat)
    requires n > 0 && channels % n == 0 && |src| == channels * spatial
    requires b < channels / n && s < spatial && t < n
    ensures b * spatial * n + s * n + t < |src|
    ensures PerChannel(src, Packed(n), channels, spatial, g)[b * spatial * n + s * n + t]
         == g(src[b * spatial * n + s * n + t], b * spatial * n + s * n + t, b * n + t)
  {
    MulLe(b + 1, channels / n, n);
    DivMod(b * n + t, b, t, n);
    PerChannelPlacement(src, Packed(n), channels, spatial, g, b * n + t, s);
  }

  /** `dst[k] = g(src[k], k, channel of k)` for the whole tensor, in the loop
      order of the scalar kernels: channel-major and channel-last rows are
      unrolled by four, packed blocks are swept cell by cell. */
  method Channelwise(src: seq<real>, dst: array<real>, o: Order, channels: nat, spatial: nat, g: Cell)
    requires WellFormed(o, channels) && |src| == channels * spatial && dst.Length == |src|
    modifies dst
    ensures dst[..] == PerChannel(src, o, channels, spatial, g)
  {
    match o
    case ChannelMajor => MajorSweep(src, dst, channels, spatial, g);
    case ChannelLast => LastSweep(src, dst, channels, spatial, g);
    case Packed(n) => PackedSweep(src, dst, n, channels, spatial, g);
  }

  /** One row per channel. */
  method MajorSweep(src: seq<real>, dst: array<real>, channels: nat, spatial: nat, g: Cell)
    requires |src| == channels * spatial && dst.Length == |src|
    modifies dst
    ensures dst[..] == PerChannel(src, ChannelMajor, channels, spatial, g)
  {
    ghost var p := PerChannel(src, ChannelMajor, channels, spatial, g);
    var c := 0;
    while c < channels
      invariant c <= channels
      invariant c * spatial <= |src|
      invariant forall k :: 0 <= k < c * spatial ==> dst[k] == p[k]
    {
      MajorRow(src, channels, spatial, g, c);
      Unrolled4Row(src, c * spatial, dst, c * spatial, spatial, t => c, g);
      assert (c + 1) * spatial == c * spatial + spatial;
      c := c + 1;
    }
    assert dst[..] == p;
  }

  /** One row per position. */
  method LastSweep(src: seq<real>, dst: array<real>, channels: nat, spatial: nat, g: Cell)
    requires |src| == channels * spatial && dst.Length == |src|
    modifies dst
    ensures dst[..] == PerChannel(src, ChannelLast, channels, spatial, g)
  {
    ghost var p := PerChannel(src, ChannelLast, channels, spatial, g);
    var s := 0;
    while s < spatial
      invariant s <= spatial
      invariant s * channels <= |src|
      invariant forall k :: 0 <= k < s * channels ==> dst[k] == p[k]
    {
      LastRow(src, channels, spatial, g, s);
      Unrolled4Row(src, s * channels, dst, s * channels, channels, t => t, g);
      assert (s + 1) * channels == s * channels + channels;
      s := s + 1;
    }
    assert dst[..] == p;
  }

  /** Blocks of `n` channels, each swept position by position. */
  method PackedSweep(src: seq<real>, dst: array<real>, n: nat, channels: nat, spatial: nat, g: Cell)
    requires n > 0 && channels % n == 0 && |src| == channels * spatial && dst.Length == |src|
    modifies dst
    ensures dst[..] == PerChannel(src, Packed(n), channels, spatial, g)
  {
    ghost var p := PerChannel(src, Packed(n), channels, spatial, g);
    PackedSize(n, channels, spatial);
    var b := 0;
    while b < channels / n
      invariant b <= channels / n
      invariant b * spatial * n <= |src|
      invariant forall k :: 0 <= k < b * spatial * n ==> dst[k] == p[k]
    {
      PackedBlock(src, dst, n, channels, spatial, g, b, p);
      assert b * spatial * n + spatial * n == (b + 1) * spatial * n;
      b := b + 1;
    }
    assert dst[..] == p;
  }

  /** Block `b`, position by position, extends the prefix of `dst` that
      already agrees with the packed output `p` by one block. */
  method PackedBlock(src: seq<real>, dst: array<real>, n: nat, channels: nat, spatial: nat, g: Cell, b: nat, ghost p: seq<real>)
    requires n > 0 && channels % n == 0 && |src| == channels * spatial && dst.Length == |src|
    requires b < channels / n && p == PerChannel(src, Packed(n), channels, spatial, g)
    requires forall k :: 0 <= k < b * spatial * n ==> dst[k] == p[k]
    modifies dst
    ensures b * spatial * n + spatial * n <= |src|
    ensures forall k :: 0 <= k < b * spatial * n + spatial * n ==> dst[k] == p[k]
  {
    var base := b * spatial * n;
    var s := 0;
    while s < spatial
      invariant s <= spatial
      invariant base + s * n <= |src|
      invariant forall k :: 0 <= k < base + s * n ==> dst[k] == p[k]
    {
      PackedRow(src, n, channels, spatial, g, b, s);
      PlainRow(src, base + s * n, dst, base + s * n, n, t => b * n + t, g);
      assert base + (s + 1) * n == base + s * n + n;
      s := s + 1;
    }
    assert spatial * n == s * n;
  }

  // ---------------------------------------------------------------------
  // Bias, scale, the single-output fused variants and PReLU.

  /** The layout the scalar dispatchers pick: NCHW-compatible first, then
      NHWC-compatible, then the packed formats; any other format picks none
      (the source only asserts, in debug builds). */
  function BaseOrder(format: TensorFormat, nchwCompatible: bool, nhwcCompatible: bool): Option<Order>
  {
    if nchwCompatible then Some(ChannelMajor)
    else if nhwcCompatible then Some(ChannelLast)
    else if format == Nchw4c then Some(Packed(4))
    else if format == Nchw8c then Some(Packed(8))
    else if format == Nchw16c then Some(Packed(16))
    else None
  }

  /** `dst[c·spatial + s] += bias[c]`. */
  method AddBiasNchw(bias: seq<real>, channels: nat, spatial: nat, dst: array<real>)
    requires |bias| >= channels && dst.Length == channels * spatial
    modifies dst
    ensures dst[..] == PerChannel(old(dst[..]), ChannelMajor, channels, spatial, BiasCell(bias))
  {
    Channelwise(dst[..], dst, ChannelMajor, channels, spatial, BiasCell(bias));
  }

  /** `dst[s·channels + c] += bias[c]`. */
  method AddBiasNhwc(bias: seq<real>, channels: nat, spatial: nat, dst: array<real>)
    requires |bias| >= channels && dst.Length == channels * spatial
    modifies dst
    ensures dst[..] == PerChannel(old(dst[..]), ChannelLast, channels, spatial, BiasCell(bias))
  {
    Channelwise(dst[..], dst, ChannelLast, channels, spatial, BiasCell(bias));
  }

  /** `NchwXc<N>`: blocks of `n` channels; the channel count must be a
      multiple of `n`. */
  method AddBiasNchwXc(n: nat, bias: seq<real>, channels: nat, spatial: nat, dst: array<real>)
    requires n > 0 && channels % n == 0
    requires |bias| >= channels && dst.Length == channels * spatial
    modifies dst
    ensures dst[..] == PerChannel(old(dst[..]), Packed(n), channels, spatial, BiasCell(bias))
  {
    Channelwise(dst[..], dst, Packed(n), channels, spatial, BiasCell(bias));
  }

  /** The bias-add dispatcher; `supported` is false, and `dst` untouched, for a
      format no branch takes. */
  method AddBias(bias: seq<real>, channels: nat, spatial: nat, dst: array<real>,
                 format: TensorFormat, nchwCompatible: bool, nhwcCompatible: bool) returns (supported: bool)
    requires |bias| >= channels && dst.Length == channels * spatial
    requires BaseOrder(format, nchwCompatible, nhwcCompatible).Some? ==>
      WellFormed(BaseOrder(format, nchwCompatible, nhwcCompatible).value, channels)
    modifies dst
    ensures supported == BaseOrder(format, nchwCompatible, nhwcCompatible).Some?
    ensures supported ==>
      dst[..] == PerChannel(old(dst[..]), BaseOrder(format, nchwCompatible, nhwcCompatible).value, channels, spatial, BiasCell(bias))
    ensures !supported ==> dst[..] == old(dst[..])
  {
    supported := true;
    if nchwCompatible {
      AddBiasNchw(bias, channels, spatial, dst);
    } else if nhwcCompatible {
      AddBiasNhwc(bias, channels, spatial, dst);
    } else if format == Nchw4c {
      AddBiasNchwXc(4, bias, channels, spatial, dst);
    } else if format == Nchw8c {
      AddBiasNchwXc(8, bias, channels, spatial, dst);
    } else if format == Nchw16c {
      AddBiasNchwXc(16, bias, channels, spatial, dst);
    } else {
      supported := false;
    }
  }

  /** `dst[c·spatial + s] = src·scale[c] (+ bias[c])`. */
  method ScaleLayerForwardNchw(src: seq<real>, scale: seq<real>, bias: Option<seq<real>>, channels: nat, spatial: nat, dst: array<real>)
    requires |src| == channels * spatial && dst.Length == |src|
    requires |scale| >= channels && (bias.Some? ==> |bias.value| >= channels)
    modifies dst
    ensures dst[..] == PerChannel(src, ChannelMajor, channels, spatial, ScaleCell(scale, bias))
  {
    Channelwise(src, dst, ChannelMajor, channels, spatial, ScaleCell(scale, bias));
  }

  /** `dst[s·channels + c] = src·scale[c] (+ bias[c])`. */
  method ScaleLayerForwardNhwc(src: seq<real>, scale: seq<real>, bias: Option<seq<real>>, channels: nat, spatial: nat, dst: array<real>)
    requires |src| == channels * spatial && dst.Length == |src|
    requires |scale| >= channels && (bias.Some? ==> |bias.value| >= channels)
    modifies dst
    ensures dst[..] == PerChannel(src, ChannelLast, channels, spatial, ScaleCell(scale, bias))
  {
    Channelwise(src, dst, ChannelLast, channels, spatial, ScaleCell(scale, bias));
  }

  /** `NchwXc<N>` scale. */
  method ScaleLayerForwardNchwXc(n: nat, src: seq<real>, scale: seq<real>, bias: Option<seq<real>>, channels: nat, spatial: nat, dst: array<real>)
    requires n > 0 && channels % n == 0
    requires |src| == channels * spatial && dst.Length == |src|
    requires |scale| >= channels && (bias.Some? ==> |bias.value| >= channels)
    modifies dst
    ensures dst[..] == PerChannel(src, Packed(n), channels, spatial, ScaleCell(scale, bias))
  {
    Channelwise(src, dst, Packed(n), channels, spatial, ScaleCell(scale, bias));
  }

  /** The scale dispatcher, with the same selection as the bias add. */
  method ScaleLayerForward(src: seq<real>, scale: seq<real>, bias: Option<seq<real>>, channels: nat, spatial: nat, dst: array<real>,
                           format: TensorFormat, nchwCompatible: bool, nhwcCompatible: bool) returns (supported: bool)
    requires |src| == channels * spatial && dst.Length == |src|
    requires |scale| >= channels && (bias.Some? ==> |bias.value| >= channels)
    requires BaseOrder(format, nchwCompatible, nhwcCompatible).Some? ==>
      WellFormed(BaseOrder(format, nchwCompatible, nhwcCompatible).value, channels)
    modifies dst
    ensures supported == BaseOrder(format, nchwCompatible, nhwcCompatible).Some?
    ensures supported ==>
      dst[..] == PerChannel(src, BaseOrder(format, nchwCompatible, nhwcCompatible).value, channels, spatial, ScaleCell(scale, bias))
    ensures !supported ==> dst[..] == old(dst[..])
  {
    supported := true;
    if nchwCompatible {
      ScaleLayerForwardNchw(src, scale, bias, channels, spatial, dst);
    } else if nhwcCompatible {
      ScaleLayerForwardNhwc(src, scale, bias, channels, spatial, dst);
    } else if format == Nchw4c {
      ScaleLayerForwardNchwXc(4, src, scale, bias, channels, spatial, dst);
    } else if format == Nchw8c {
      ScaleLayerForwardNchwXc(8, src, scale, bias, channels, spatial, dst);
    } else if format == Nchw16c {
      ScaleLayerForwardNchwXc(16, src, scale, bias, channels, spatial, dst);
    } else {
      supported := false;
    }
  }

  /** Variant 0: `dst = Fused0(src + bias[c], scale[c])`. */
  method FusedLayerForward0(src: seq<real>, bias: seq<real>, scale: seq<real>, count: nat, size: nat, dst: array<real>, trans: bool)
    requires |src| == count * size && dst.Length == |src| && |bias| >= count && |scale| >= count
    modifies dst
    ensures dst[..] == PerChannel(src, FusedOrder(trans, count, size), count, size, Fused0Cell(bias, scale))
  {
    Channelwise(src, dst, FusedOrder(trans, count, size), count, size, Fused0Cell(bias, scale));
  }

  /** Variant 1: `dst = Fused1(src + bias0[c], scale1[c], bias1[c])`. */
  method FusedLayerForward1(src: seq<real>, bias0: seq<real>, scale1: seq<real>, bias1: seq<real>, count: nat, size: nat,
                            dst: array<real>, trans: bool)
    requires |src| == count * size && dst.Length == |src|
    requires |bias0| >= count && |scale1| >= count && |bias1| >= count
    modifies dst
    ensures dst[..] == PerChannel(src, FusedOrder(trans, count, size), count, size, Fused1Cell(bias0, scale1, bias1))
  {
    Channelwise(src, dst, FusedOrder(trans, count, size), count, size, Fused1Cell(bias0, scale1, bias1));
  }

  /** Variant 2: `dst = Fused2(src·scale[c] + bias[c], slope[0])`. */
  method FusedLayerForward2(src: seq<real>, scale: seq<real>, bias: seq<real>, count: nat, size: nat, slope: seq<real>,
                            dst: array<real>, trans: bool)
    requires |src| == count * size && dst.Length == |src|
    requires |scale| >= count && |bias| >= count && |slope| >= 1
    modifies dst
    ensures dst[..] == PerChannel(src, FusedOrder(trans, count, size), count, size, Fused2Cell(scale, bias, slope[0]))
  {
    Channelwise(src, dst, FusedOrder(trans, count, size), count, size, Fused2Cell(scale, bias, slope[0]));
  }

  /** Variant 3: `dst = Fused3(src + bias[c], scale[c])`. */
  method FusedLayerForward3(src: seq<real>, bias: seq<real>, scale: seq<real>, count: nat, size: nat, dst: array<real>, trans: bool)
    requires |src| == count * size && dst.Length == |src| && |bias| >= count && |scale| >= count
    modifies dst
    ensures dst[..] == PerChannel(src, FusedOrder(trans, count, size), count, size, Fused3Cell(bias, scale))
  {
    Channelwise(src, dst, FusedOrder(trans, count, size), count, size, Fused3Cell(bias, scale));
  }

  /** Variant 8: `dst = src0 + src1·src2[c]`. */
  method FusedLayerForward8(src0: seq<real>, src1: seq<real>, src2: seq<real>, count: nat, size: nat, dst: array<real>, trans: bool)
    requires |src0| == count * size && |src1| == |src0| && dst.Length == |src0| && |src2| >= count
    modifies dst
    ensures dst[..] == PerChannel(src0, FusedOrder(trans, count, size), count, size, Fused8Cell(src1, src2))
  {
    Channelwise(src0, dst, FusedOrder(trans, count, size), count, size, Fused8Cell(src1, src2));
  }

  /** `dst = max(0, src) + slope[c]·min(0, src)`. */
  method PreluLayerForward(src: seq<real>, slope: seq<real>, count: nat, size: nat, dst: array<real>, trans: bool)
    requires |src| == count * size && dst.Length == |src| && |slope| >= count
    modifies dst
    ensures dst[..] == PerChannel(src, FusedOrder(trans, count, size), count, size, PreluCell(slope))
  {
    Channelwise(src, dst, FusedOrder(trans, count, size), count, size, PreluCell(slope));
  }

  /** `dst[i] = min(max(lower, src[i]), upper)`. */
  method RestrictRangeForward(src: seq<real>, lower: real, upper: real, dst: array<real>)
    requires dst.Length == |src|
    modifies dst
    ensures dst[..] == RestrictRange(src, lower, upper)
  {
    var i := 0;
    while i < |src|
      invariant i <= |src|
      invariant forall k :: 0 <= k < i ==> dst[k] == Restrict(src[k], lower, upper)
    {
      dst[i] := Restrict(src[i], lower, upper);
      i := i + 1;
    }
  }

  // ---------------------------------------------------------------------
  // Fused variant 4: two results per element, in one buffer.

  /** `d` is `d0` with two rows of `n` cells replaced: cell `at0 + t` holds
      `g0` and cell `at1 + t` holds `g1` of source cell `from + t`. */
  ghost predicate TwoRowsWritten(d: seq<real>, d0: seq<real>, src: seq<real>, from: nat, at0: nat, at1: nat, n: nat,
                                 ch: nat -> nat, g0: Cell, g1: Cell)
  {
    |d| == |d0| &&
    forall k :: 0 <= k < |d| ==>
      d[k] == if at0 <= k < at0 + n then g0(At(src, from + (k - at0)), from + (k - at0), ch(k - at0))
              else if at1 <= k < at1 + n then g1(At(src, from + (k - at1)), from + (k - at1), ch(k - at1))
              else d0[k]
  }

  /** The two cells of source cell `from + t`. */
  method WriteTwoCells(src: seq<real>, from: nat, dst: array<real>, at0: nat, at1: nat, t: nat, ch: nat -> nat,
                       g0: Cell, g1: Cell, ghost d0: seq<real>)
    requires from + t < |src| && at0 + t < at1 && at1 + t < dst.Length
    requires TwoRowsWritten(dst[..], d0, src, from, at0, at1, t, ch, g0, g1)
    modifies dst
    ensures TwoRowsWritten(dst[..], d0, src, from, at0, at1, t + 1, ch, g0, g1)
  {
    var x := src[from + t];
    dst[at0 + t] := g0(x, from + t, ch(t));
    dst[at1 + t] := g1(x, from + t, ch(t));
  }

  /** Two output rows from one source row, unrolled by four. */
  method Unrolled4TwoRows(src: seq<real>, from: nat, dst: array<real>, at0: nat, at1: nat, n: nat, ch: nat -> nat, g0: Cell, g1: Cell)
    requires from + n <= |src| && at0 + n <= at1 && at1 + n <= dst.Length
    modifies dst
    ensures TwoRowsWritten(dst[..], old(dst[..]), src, from, at0, at1, n, ch, g0, g1)
  {
    ghost var d0 := dst[..];
    var aligned := AlignLo(n, 4);
    var t := 0;
    while t < aligned
      invariant t <= aligned && t % 4 == 0
      invariant TwoRowsWritten(dst[..], d0, src, from, at0, at1, t, ch, g0, g1)
    {
      AlignedStep(t, aligned, 4);
      WriteTwoCells(src, from, dst, at0, at1, t, ch, g0, g1, d0);
      WriteTwoCells(src, from, dst, at0, at1, t + 1, ch, g0, g1, d0);
      WriteTwoCells(src, from, dst, at0, at1, t + 2, ch, g0, g1, d0);
      WriteTwoCells(src, from, dst, at0, at1, t + 3, ch, g0, g1, d0);
      t := t + 4;
    }
    while t < n
      invariant t <= n
      invariant TwoRowsWritten(dst[..], d0, src, from, at0, at1, t, ch, g0, g1)
    {
      WriteTwoCells(src, from, dst, at0, at1, t, ch, g0, g1, d0);
      t := t + 1;
    }
  }

  /** `p` holds, at cell `at0 + t` and at cell `at1 + t`, `g0` and `g1` of
      source cell `from + t`. */
  ghost predicate RowsAgree(p: seq<real>, src: seq<real>, from: nat, at0: nat, at1: nat, n: nat, ch: nat -> nat, g0: Cell, g1: Cell)
  {
    at0 + n <= |p| && at1 + n <= |p| &&
    (forall k :: at0 <= k < at0 + n ==> p[k] == g0(At(src, from + (k - at0)), from + (k - at0), ch(k - at0))) &&
    (forall k :: at1 <= k < at1 + n ==> p[k] == g1(At(src, from + (k - at1)), from + (k - at1), ch(k - at1)))
  }

  /** Two adjacent rows written as `p` describes them, right after a prefix
      that already agrees with `p`, extend that prefix. */
  lemma TwoRowsAppend(d: seq<real>, d0: seq<real>, p: seq<real>, src: seq<real>, from: nat, at0: nat, n: nat,
                      ch: nat -> nat, g0: Cell, g1: Cell)
    requires |p| == |d|
    requires TwoRowsWritten(d, d0, src, from, at0, at0 + n, n, ch, g0, g1)
    requires RowsAgree(p, src, from, at0, at0 + n, n, ch, g0, g1)
    requires forall k :: 0 <= k < at0 ==> d0[k] == p[k]
    ensures forall k :: 0 <= k < at0 + 2 * n ==> d[k] == p[k]
  {
  }

  /** Two rows written as `p` describes them, each right after a stretch that
      already agrees with `p`, extend both stretches. */
  lemma TwoRowsAppendApart(d: seq<real>, d0: seq<real>, p: seq<real>, src: seq<real>, from: nat, at0: nat, base: nat, at1: nat, n: nat,
                           ch: nat -> nat, g0: Cell, g1: Cell)
    requires |p| == |d| && at0 + n <= base <= at1
    requires TwoRowsWritten(d, d0, src, from, at0, at1, n, ch, g0, g1)
    requires RowsAgree(p, src, from, at0, at1, n, ch, g0, g1)
    requires forall k :: 0 <= k < at0 ==> d0[k] == p[k]
    requires forall k :: base <= k < at1 ==> d0[k] == p[k]
    ensures forall k :: 0 <= k < at0 + n ==> d[k] == p[k]
    ensures forall k :: base <= k < at1 + n ==> d[k] == p[k]
  {
  }

  /** Channel-last, position `j` fills its first results at `j·2·count` and
      its second results `count` further on. */
  lemma Fused4RowLast(src: seq<real>, bias0: seq<real>, scale1: real, bias1: real, count: nat, size: nat, trans: bool, j: nat)
    requires (trans || size == 1) && count != 1
    requires |src| == count * size && j < size
    ensures j * (2 * count) + 2 * count <= 2 * count * size && j * count + count <= |src|
    ensures RowsAgree(Fused4(src, bias0, scale1, bias1, count, size, trans), src, j * count, j * (2 * count), j * (2 * count) + count,
                      count, t => t, Fused4FirstCell(bias0), Fused4SecondCell(bias0, scale1, bias1))
  {
    MulLe(j + 1, size, 2 * count);
    MulLe(j + 1, size, count);
    var at0 := j * (2 * count);
    forall k | at0 <= k < at0 + count {
      Fused4FirstLast(src, bias0, scale1, bias1, count, size, trans, j, k);
    }
    forall k | at0 + count <= k < at0 + count + count {
      Fused4SecondLast(src, bias0, scale1, bias1, count, size, trans, j, k);
    }
  }

  lemma Fused4FirstLast(src: seq<real>, bias0: seq<real>, scale1: real, bias1: real, count: nat, size: nat, trans: bool, j: nat, k: nat)
    requires (trans || size == 1) && count != 1
    requires |src| == count * size && j < size
    requires j * (2 * count) <= k < j * (2 * count) + count
    ensures var p := Fused4(src, bias0, scale1, bias1, count, size, trans);
      var t := k - j * (2 * count);
      k < |p| && p[k] == Relu(At(src, j * count + t) + At(bias0, t))
  {
    Fused4PlacementLast(src, bias0, scale1, bias1, count, size, trans, k - j * (2 * count), j);
  }

  lemma Fused4SecondLast(src: seq<real>, bias0: seq<real>, scale1: real, bias1: real, count: nat, size: nat, trans: bool, j: nat, k: nat)
    requires (trans || size == 1) && count != 1
    requires |src| == count * size && j < size
    requires j * (2 * count) + count <= k < j * (2 * count) + count + count
    ensures var p := Fused4(src, bias0, scale1, bias1, count, size, trans);
      var t := k - (j * (2 * count) + count);
      k < |p| && p[k] == Fused4SecondCell(bias0, scale1, bias1)(At(src, j * count + t), j * count + t, t)
  {
    Fused4PlacementLast(src, bias0, scale1, bias1, count, size, trans, k - (j * (2 * count) + count), j);
  }

  /** Otherwise, channel `i` fills `[i·size, (i+1)·size)` and the same row
      `count·size` further on. */
  lemma Fused4RowMajor(src: seq<real>, bias0: seq<real>, scale1: real, bias1: real, count: nat, size: nat, trans: bool, i: nat)
    requires !((trans || size == 1) && count != 1)
    requires |src| == count * size && i < count
    ensures i * size + size <= count * size
    ensures RowsAgree(Fused4(src, bias0, scale1, bias1, count, size, trans), src, i * size, i * size, count * size + i * size,
                      size, t => i, Fused4FirstCell(bias0), Fused4SecondCell(bias0, scale1, bias1))
  {
    MulLe(i + 1, count, size);
    var at0, at1 := i * size, count * size + i * size;
    forall k | at0 <= k < at0 + size {
      Fused4FirstMajor(src, bias0, scale1, bias1, count, size, trans, i, k);
    }
    forall k | at1 <= k < at1 + size {
      Fused4SecondMajor(src, bias0, scale1, bias1, count, size, trans, i, k);
    }
  }

  lemma Fused4FirstMajor(src: seq<real>, bias0: seq<real>, scale1: real, bias1: real, count: nat, size: nat, trans: bool, i: nat, k: nat)
    requires !((trans || size == 1) && count != 1)
    requires |src| == count * size && i < count
    requires i * size <= k < i * size + size
    ensures var p := Fused4(src, bias0, scale1, bias1, count, size, trans);
      k < |p| && p[k] == Fused4FirstCell(bias0)(At(src, i * size + (k - i * size)), i * size + (k - i * size), i)
  {
    Fused4PlacementMajor(src, bias0, scale1, bias1, count, size, trans, i, k - i * size);
  }

  lemma Fused4SecondMajor(src: seq<real>, bias0: seq<real>, scale1: real, bias1: real, count: nat, size: nat, trans: bool, i: nat, k: nat)
    requires !((trans || size == 1) && count != 1)
    requires |src| == count * size && i < count
    requires count * size + i * size <= k < count * size + i * size + size
    ensures var p := Fused4(src, bias0, scale1, bias1, count, size, trans);
      var t := k - (count * size + i * size);
      k < |p| && p[k] == Fused4SecondCell(bias0, scale1, bias1)(At(src, i * size + t), i * size + t, i)
  {
    Fused4PlacementMajor(src, bias0, scale1, bias1, count, size, trans, i, k - (count * size + i * size));
  }

  /** Variant 4: `dst0 = max(0, src + bias0[c])` and
      `dst1 = max(0, dst0'·scale1[0] + bias1[0])` with `dst0'` the biased
      input, both halves of one `2·count·size` buffer. */
  method FusedLayerForward4(src: seq<real>, bias0: seq<real>, scale1: seq<real>, bias1: seq<real>, count: nat, size: nat,
                            dst: array<real>, trans: bool)
    requires |src| == count * size && dst.Length == 2 * count * size
    requires |bias0| >= count && |scale1| >= 1 && |bias1| >= 1
    modifies dst
    ensures dst[..] == Fused4(src, bias0, scale1[0], bias1[0], count, size, trans)
  {
    var s1, b1 := scale1[0], bias1[0];
    if (trans || size == 1) && count != 1 {
      Fused4Last(src, bias0, s1, b1, count, size, dst, trans);
    } else {
      Fused4Major(src, bias0, s1, b1, count, size, dst, trans);
    }
  }

  /** Channel-last: position by position, first results then second. */
  method Fused4Last(src: seq<real>, bias0: seq<real>, s1: real, b1: real, count: nat, size: nat, dst: array<real>, trans: bool)
    requires (trans || size == 1) && count != 1
    requires |src| == count * size && dst.Length == 2 * count * size
    modifies dst
    ensures dst[..] == Fused4(src, bias0, s1, b1, count, size, trans)
  {
    ghost var p := Fused4(src, bias0, s1, b1, count, size, trans);
    Fused4Length(src, bias0, s1, b1, count, size, trans);
    forall j | 0 <= j < size
      ensures Fused4PositionAgrees(p, src, bias0, s1, b1, count, j)
    {
      Fused4RowLast(src, bias0, s1, b1, count, size, trans, j);
      assert j * (2 * count) == 2 * (j * count);
    }
    Fused4LastSweep(src, bias0, s1, b1, count, size, dst, p);
  }

  /** Both rows of position `j` of variant 4, channel-last. */
  ghost predicate Fused4PositionAgrees(p: seq<real>, src: seq<real>, bias0: seq<real>, s1: real, b1: real, count: nat, j: nat)
  {
    RowsAgree(p, src, j * count, 2 * (j * count), 2 * (j * count) + count, count, t => t,
              Fused4FirstCell(bias0), Fused4SecondCell(bias0, s1, b1))
  }

  /** The position loop of `Fused4Last`, against an output `p` known position
      by position. */
  method Fused4LastSweep(src: seq<real>, bias0: seq<real>, s1: real, b1: real, count: nat, size: nat,
                         dst: array<real>, ghost p: seq<real>)
    requires |src| == count * size && dst.Length == |p| == 2 * count * size
    requires forall j :: 0 <= j < size ==> Fused4PositionAgrees(p, src, bias0, s1, b1, count, j)
    modifies dst
    ensures dst[..] == p
  {
    var j := 0;
    while j < size
      invariant j <= size && 2 * (j * count) <= |p|
      invariant forall k :: 0 <= k < 2 * (j * count) ==> dst[k] == p[k]
    {
      MulLe(j + 1, size, count);
      Fused4Position(src, bias0, s1, b1, count, dst, j, p);
      j := j + 1;
    }
    assert dst[..] == p;
  }

  /** Position `j` of variant 4, channel-last, written after a prefix that
      already agrees with `p`, extends that prefix by one position. */
  method Fused4Position(src: seq<real>, bias0: seq<real>, s1: real, b1: real, count: nat, dst: array<real>, j: nat, ghost p: seq<real>)
    requires dst.Length == |p| && (j + 1) * count <= |src| && 2 * ((j + 1) * count) <= |p|
    requires Fused4PositionAgrees(p, src, bias0, s1, b1, count, j)
    requires forall k :: 0 <= k < 2 * (j * count) ==> dst[k] == p[k]
    modifies dst
    ensures forall k :: 0 <= k < 2 * ((j + 1) * count) ==> dst[k] == p[k]
  {
    var from := j * count;
    assert (j + 1) * count == from + count;
    ghost var d0 := dst[..];
    Unrolled4TwoRows(src, from, dst, 2 * from, 2 * from + count, count, t => t, Fused4FirstCell(bias0), Fused4SecondCell(bias0, s1, b1));
    TwoRowsAppend(dst[..], d0, p, src, from, 2 * from, count, t => t, Fused4FirstCell(bias0), Fused4SecondCell(bias0, s1, b1));
  }

  /** Channel-major: channel by channel, each row into both halves. */
  method Fused4Major(src: seq<real>, bias0: seq<real>, s1: real, b1: real, count: nat, size: nat, dst: array<real>, trans: bool)
    requires !((trans || size == 1) && count != 1)
    requires |src| == count * size && dst.Length == 2 * count * size
    modifies dst
    ensures dst[..] == Fused4(src, bias0, s1, b1, count, size, trans)
  {
    ghost var p := Fused4(src, bias0, s1, b1, count, size, trans);
    Fused4Length(src, bias0, s1, b1, count, size, trans);
    var i := 0;
    while i < count
      invariant i <= count
      invariant i * size <= count * size
      invariant forall k :: 0 <= k < i * size ==> dst[k] == p[k]
      invariant forall k :: count * size <= k < count * size + i * size ==> dst[k] == p[k]
    {
      Fused4RowMajor(src, bias0, s1, b1, count, size, trans, i);
      Fused4Channel(src, bias0, s1, b1, count, size, dst, i, p);
      i := i + 1;
    }
    assert dst[..] == p;
  }

  /** Channel `i` of variant 4, channel-major, written after the channels
      before it in both halves, extends both halves by one channel. */
  method Fused4Channel(src: seq<real>, bias0: seq<real>, s1: real, b1: real, count: nat, size: nat, dst: array<real>, i: nat, ghost p: seq<real>)
    requires dst.Length == |p| && i * size + size <= count * size && |src| == count * size
    requires RowsAgree(p, src, i * size, i * size, count * size + i * size, size, t => i,
                       Fused4FirstCell(bias0), Fused4SecondCell(bias0, s1, b1))
    requires forall k :: 0 <= k < i * size ==> dst[k] == p[k]
    requires forall k :: count * size <= k < count * size + i * size ==> dst[k] == p[k]
    modifies dst
    ensures forall k :: 0 <= k < (i + 1) * size ==> dst[k] == p[k]
    ensures forall k :: count * size <= k < count * size + (i + 1) * size ==> dst[k] == p[k]
  {
    assert (i + 1) * size == i * size + size;
    ghost var d0 := dst[..];
    Unrolled4TwoRows(src, i * size, dst, i * size, count * size + i * size, size, t => i,
                     Fused4FirstCell(bias0), Fused4SecondCell(bias0, s1, b1));
    TwoRowsAppendApart(dst[..], d0, p, src, i * size, i * size, count * size, count * size + i * size, size, t => i,
                       Fused4FirstCell(bias0), Fused4SecondCell(bias0, s1, b1));
  }

  // ---------------------------------------------------------------------
  // Fused variant 9: two sources concatenated along the channels.

  /** `p` holds, at cell `at + t`, `g` of source cell `from + t`. */
  ghost predicate RowAgrees(p: seq<real>, src: seq<real>, from: nat, at: nat, n: nat, ch: nat -> nat, g: Cell)
  {
    at + n <= |p| &&
    forall k :: at <= k < at + n ==> p[k] == g(At(src, from + (k - at)), from + (k - at), ch(k - at))
  }

  /** A row written as `p` describes it, right after a prefix that already
      agrees with `p`, extends that prefix. */
  lemma RowAppend(d: seq<real>, d0: seq<real>, p: seq<real>, src: seq<real>, from: nat, at: nat, n: nat, ch: nat -> nat, g: Cell)
    requires |p| == |d|
    requires RowWritten(d, d0, src, from, at, n, ch, g)
    requires RowAgrees(p, src, from, at, n, ch, g)
    requires forall k :: 0 <= k < at ==> d0[k] == p[k]
    ensures forall k :: 0 <= k < at + n ==> d[k] == p[k]
  {
  }

  /** The copy of the concatenated input that variant 9 can also produce. */
  function Copy(): Cell
  {
    (x, k, c) => x
  }

  /** One row of variant 9: `dst0[at + t] = Fused9(src[from + t])` and, when
      there is a second output, `dst1[at + t] = src[from + t]`. */
  method Fused9Row(src: seq<real>, from: nat, dst0: array<real>, dst1: array?<real>, at: nat, n: nat, ch: nat -> nat,
                   scale: seq<real>, bias: seq<real>)
    requires from + n <= |src| && at + n <= dst0.Length
    requires dst1 != null ==> dst1 != dst0 && at + n <= dst1.Length
    modifies dst0, dst1
    ensures RowWritten(dst0[..], old(dst0[..]), src, from, at, n, ch, Fused9Cell(scale, bias))
    ensures dst1 != null ==> RowWritten(dst1[..], old(dst1[..]), src, from, at, n, ch, Copy())
  {
    if dst1 != null {
      ghost var a0, a1 := dst0[..], dst1[..];
      var t := 0;
      while t < n
        invariant t <= n
        invariant RowWritten(dst0[..], a0, src, from, at, t, ch, Fused9Cell(scale, bias))
        invariant RowWritten(dst1[..], a1, src, from, at, t, ch, Copy())
      {
        var x := src[from + t];
        dst0[at + t] := Formulas.Fused9(x, At(scale, ch(t)), At(bias, ch(t)));
        dst1[at + t] := x;
        t := t + 1;
      }
    } else {
      PlainRow(src, from, dst0, at, n, ch, Fused9Cell(scale, bias));
    }
  }

  /** One row of variant 9 written after a prefix that already agrees with
      both outputs extends the prefix of both. */
  method Fused9Step(src: seq<real>, from: nat, dst0: array<real>, dst1: array?<real>, at: nat, n: nat, ch: nat -> nat,
                    scale: seq<real>, bias: seq<real>, ghost out: seq<real>, ghost cat: seq<real>)
    requires from + n <= |src| && |out| == dst0.Length
    requires dst1 != null ==> dst1 != dst0 && |cat| == dst1.Length
    requires RowAgrees(out, src, from, at, n, ch, Fused9Cell(scale, bias))
    requires dst1 != null ==> RowAgrees(cat, src, from, at, n, ch, Copy())
    requires forall k :: 0 <= k < at ==> dst0[k] == out[k]
    requires dst1 != null ==> forall k :: 0 <= k < at ==> dst1[k] == cat[k]
    modifies dst0, dst1
    ensures forall k :: 0 <= k < at + n ==> dst0[k] == out[k]
    ensures dst1 != null ==> forall k :: 0 <= k < at + n ==> dst1[k] == cat[k]
  {
    ghost var a0 := dst0[..];
    ghost var a1 := if dst1 != null then dst1[..] else [];
    Fused9Row(src, from, dst0, dst1, at, n, ch, scale, bias);
    RowAppend(dst0[..], a0, out, src, from, at, n, ch, Fused9Cell(scale, bias));
    if dst1 != null {
      RowAppend(dst1[..], a1, cat, src, from, at, n, ch, Copy());
    }
  }

  /** Channel-last cell `k` of the first group's part of row `j`. */
  lemma Fused9FirstLastCell(src0: seq<real>, src1: seq<real>, scale: seq<real>, bias: seq<real>,
                            count0: nat, count1: nat, size: nat, trans: bool, j: nat, k: nat)
    requires trans || size == 1
    requires |src0| == count0 * size && |src1| == count1 * size && j < size
    requires j * (count0 + count1) <= k < j * (count0 + count1) + count0
    ensures var cat := Concat(src0, src1, count0, count1, size, trans);
            var out := Fused9Output(src0, src1, scale, bias, count0, count1, size, trans);
            var t := k - j * (count0 + count1);
            k < |cat| && cat[k] == At(src0, j * count0 + t) &&
            out[k] == Formulas.Fused9(At(src0, j * count0 + t), At(scale, t), At(bias, t))
  {
    Fused9FirstGroupLast(src0, src1, scale, bias, count0, count1, size, trans, k - j * (count0 + count1), j);
  }

  /** Channel-last cell `k` of the second group's part of row `j`. */
  lemma Fused9SecondLastCell(src0: seq<real>, src1: seq<real>, scale: seq<real>, bias: seq<real>,
                             count0: nat, count1: nat, size: nat, trans: bool, j: nat, k: nat)
    requires trans || size == 1
    requires |src0| == count0 * size && |src1| == count1 * size && j < size
    requires j * (count0 + count1) + count0 <= k < j * (count0 + count1) + count0 + count1
    ensures var cat := Concat(src0, src1, count0, count1, size, trans);
            var out := Fused9Output(src0, src1, scale, bias, count0, count1, size, trans);
            var t := k - (j * (count0 + count1) + count0);
            k < |cat| && cat[k] == At(src1, j * count1 + t) &&
            out[k] == Formulas.Fused9(At(src1, j * count1 + t), At(scale, count0 + t), At(bias, count0 + t))
  {
    Fused9SecondGroupLast(src0, src1, scale, bias, count0, count1, size, trans, k - (j * (count0 + count1) + count0), j);
  }

  /** Channel-last, position `j` starts with the `count0` channels of `src0`. */
  lemma Fused9FirstRowLast(src0: seq<real>, src1: seq<real>, scale: seq<real>, bias: seq<real>,
                           count0: nat, count1: nat, size: nat, trans: bool, j: nat)
    requires trans || size == 1
    requires |src0| == count0 * size && |src1| == count1 * size && j < size
    ensures j * count0 + count0 <= |src0|
    ensures RowAgrees(Fused9Output(src0, src1, scale, bias, count0, count1, size, trans),
                      src0, j * count0, j * (count0 + count1), count0, t => t, Fused9Cell(scale, bias))
    ensures RowAgrees(Concat(src0, src1, count0, count1, size, trans),
                      src0, j * count0, j * (count0 + count1), count0, t => t, Copy())
  {
    MulLe(j + 1, size, count0 + count1);
    MulLe(j + 1, size, count0);
    ConcatLength(src0, src1, count0, count1, size, trans);
    var at := j * (count0 + count1);
    forall k | at <= k < at + count0 {
      Fused9FirstLastCell(src0, src1, scale, bias, count0, count1, size, trans, j, k);
    }
  }

  /** Channel-last, position `j` ends with the `count1` channels of `src1`:
      the first output. */
  lemma Fused9SecondRowLast(src0: seq<real>, src1: seq<real>, scale: seq<real>, bias: seq<real>,
                            count0: nat, count1: nat, size: nat, trans: bool, j: nat)
    requires trans || size == 1
    requires |src0| == count0 * size && |src1| == count1 * size && j < size
    ensures j * count1 + count1 <= |src1|
    ensures RowAgrees(Fused9Output(src0, src1, scale, bias, count0, count1, size, trans),
                      src1, j * count1, j * (count0 + count1) + count0, count1, t => count0 + t, Fused9Cell(scale, bias))
  {
    MulLe(j + 1, size, count1);
    Fused9SecondRowBound(src0, src1, scale, bias, count0, count1, size, trans, j);
    var at := j * (count0 + count1) + count0;
    ghost var out := Fused9Output(src0, src1, scale, bias, count0, count1, size, trans);
    forall k | at <= k < at + count1
      ensures out[k] == Fused9Cell(scale, bias)(At(src1, j * count1 + (k - at)), j * count1 + (k - at), count0 + (k - at))
    {
      Fused9SecondLastCell(src0, src1, scale, bias, count0, count1, size, trans, j, k);
    }
  }

  /** Channel-last, position `j` ends with the `count1` channels of `src1`:
      the concatenation. */
  lemma Fused9SecondRowLastCopy(src0: seq<real>, src1: seq<real>, scale: seq<real>, bias: seq<real>,
                                count0: nat, count1: nat, size: nat, trans: bool, j: nat)
    requires trans || size == 1
    requires |src0| == count0 * size && |src1| == count1 * size && j < size
    ensures RowAgrees(Concat(src0, src1, count0, count1, size, trans),
                      src1, j * count1, j * (count0 + count1) + count0, count1, t => count0 + t, Copy())
  {
    Fused9SecondRowBound(src0, src1, scale, bias, count0, count1, size, trans, j);
    var at := j * (count0 + count1) + count0;
    forall k | at <= k < at + count1 {
      Fused9SecondLastCell(src0, src1, scale, bias, count0, count1, size, trans, j, k);
    }
  }

  /** The second group's part of position `j` lies inside both outputs. */
  lemma Fused9SecondRowBound(src0: seq<real>, src1: seq<real>, scale: seq<real>, bias: seq<real>,
                             count0: nat, count1: nat, size: nat, trans: bool, j: nat)
    requires |src0| == count0 * size && |src1| == count1 * size && j < size
    ensures j * (count0 + count1) + count0 + count1 <= |Concat(src0, src1, count0, count1, size, trans)|
    ensures |Concat(src0, src1, count0, count1, size, trans)| == (count0 + count1) * size
    ensures |Fused9Output(src0, src1, scale, bias, count0, count1, size, trans)| == (count0 + count1) * size
  {
    MulLe(j + 1, size, count0 + count1);
    ConcatLength(src0, src1, count0, count1, size, trans);
  }

  /** Channel-major cell `k` of row `i` of the first group. */
  lemma Fused9FirstMajorCell(src0: seq<real>, src1: seq<real>, scale: seq<real>, bias: seq<real>,
                             count0: nat, count1: nat, size: nat, trans: bool, i: nat, k: nat)
    requires !(trans || size == 1)
    requires |src0| == count0 * size && |src1| == count1 * size && i < count0
    requires i * size <= k < i * size + size
    ensures var cat := Concat(src0, src1, count0, count1, size, trans);
            var out := Fused9Output(src0, src1, scale, bias, count0, count1, size, trans);
            k < |cat| && cat[k] == At(src0, i * size + (k - i * size)) &&
            out[k] == Formulas.Fused9(At(src0, i * size + (k - i * size)), At(scale, i), At(bias, i))
  {
    Fused9FirstGroupMajor(src0, src1, scale, bias, count0, count1, size, trans, i, k - i * size);
  }

  /** Channel-major cell `k` of row `i` of the second group. */
  lemma Fused9SecondMajorCell(src0: seq<real>, src1: seq<real>, scale: seq<real>, bias: seq<real>,
                              count0: nat, count1: nat, size: nat, trans: bool, i: nat, k: nat)
    requires !(trans || size == 1)
    requires |src0| == count0 * size && |src1| == count1 * size && i < count1
    requires count0 * size + i * size <= k < count0 * size + i * size + size
    ensures var cat := Concat(src0, src1, count0, count1, size, trans);
            var out := Fused9Output(src0, src1, scale, bias, count0, count1, size, trans);
            var t := k - (count0 * size + i * size);
            k < |cat| && cat[k] == At(src1, i * size + t) &&
            out[k] == Formulas.Fused9(At(src1, i * size + t), At(scale, count0 + i), At(bias, count0 + i))
  {
    Fused9SecondGroupMajor(src0, src1, scale, bias, count0, count1, size, trans, i, k - (count0 * size + i * size));
  }

  /** Channel-major, row `i` of the first group is channel `i`. */
  lemma Fused9FirstRowMajor(src0: seq<real>, src1: seq<real>, scale: seq<real>, bias: seq<real>,
                            count0: nat, count1: nat, size: nat, trans: bool, i: nat)
    requires !(trans || size == 1)
    requires |src0| == count0 * size && |src1| == count1 * size && i < count0
    ensures i * size + size <= count0 * size
    ensures var cat := Concat(src0, src1, count0, count1, size, trans);
            var out := Fused9Output(src0, src1, scale, bias, count0, count1, size, trans);
            RowAgrees(out, src0, i * size, i * size, size, t => i, Fused9Cell(scale, bias)) &&
            RowAgrees(cat, src0, i * size, i * size, size, t => i, Copy())
  {
    MulLe(i + 1, count0, size);
    ConcatLength(src0, src1, count0, count1, size, trans);
    forall k | i * size <= k < i * size + size {
      Fused9FirstMajorCell(src0, src1, scale, bias, count0, count1, size, trans, i, k);
    }
  }

  /** Channel-major, row `i` of the second group is channel `count0 + i`. */
  lemma Fused9SecondRowMajor(src0: seq<real>, src1: seq<real>, scale: seq<real>, bias: seq<real>,
                             count0: nat, count1: nat, size: nat, trans: bool, i: nat)
    requires !(trans || size == 1)
    requires |src0| == count0 * size && |src1| == count1 * size && i < count1
    ensures i * size + size <= count1 * size
    ensures var cat := Concat(src0, src1, count0, count1, size, trans);
            var out := Fused9Output(src0, src1, scale, bias, count0, count1, size, trans);
            RowAgrees(out, src1, i * size, count0 * size + i * size, size, t => count0 + i, Fused9Cell(scale, bias)) &&
            RowAgrees(cat, src1, i * size, count0 * size + i * size, size, t => count0 + i, Copy())
  {
    MulLe(i + 1, count1, size);
    ConcatLength(src0, src1, count0, count1, size, trans);
    forall k | count0 * size + i * size <= k < count0 * size + i * size + size {
      Fused9SecondMajorCell(src0, src1, scale, bias, count0, count1, size, trans, i, k);
    }
  }

  /** Variant 9: `dst0 = max(0, src·scale[c] + bias[c])` over the channels of
      `src0` followed by those of `src1` (whose parameters start at `count0`),
      and, when `dst1` is given, `dst1` the concatenation itself. */
  method FusedLayerForward9(src0: seq<real>, src1: seq<real>, scale0: seq<real>, bias0: seq<real>,
                            count0: nat, count1: nat, size: nat, dst0: array<real>, dst1: array?<real>, trans: bool)
    requires |src0| == count0 * size && |src1| == count1 * size
    requires |scale0| >= count0 + count1 && |bias0| >= count0 + count1
    requires dst0.Length == (count0 + count1) * size
    requires dst1 != null ==> dst1 != dst0 && dst1.Length == (count0 + count1) * size
    modifies dst0, dst1
    ensures dst0[..] == Fused9Output(src0, src1, scale0, bias0, count0, count1, size, trans)
    ensures dst1 != null ==> dst1[..] == Concat(src0, src1, count0, count1, size, trans)
  {
    if trans || size == 1 {
      Fused9Last(src0, src1, scale0, bias0, count0, count1, size, dst0, dst1, trans);
    } else {
      Fused9Major(src0, src1, scale0, bias0, count0, count1, size, dst0, dst1, trans);
    }
  }

  /** Channel-last position `j` of the two outputs, as `Fused9FirstRowLast`
      and `Fused9SecondRowLast` describe it. */
  ghost predicate PositionAgrees(out: seq<real>, cat: seq<real>, src0: seq<real>, src1: seq<real>, scale: seq<real>, bias: seq<real>,
                                 count0: nat, count1: nat, j: nat)
  {
    var at := j * (count0 + count1);
    RowAgrees(out, src0, j * count0, at, count0, t => t, Fused9Cell(scale, bias)) &&
    RowAgrees(cat, src0, j * count0, at, count0, t => t, Copy()) &&
    RowAgrees(out, src1, j * count1, at + count0, count1, t => count0 + t, Fused9Cell(scale, bias)) &&
    RowAgrees(cat, src1, j * count1, at + count0, count1, t => count0 + t, Copy())
  }

  /** Channel-last: each position takes the channels of `src0`, then those of
      `src1`. */
  method Fused9Last(src0: seq<real>, src1: seq<real>, scale: seq<real>, bias: seq<real>,
                    count0: nat, count1: nat, size: nat, dst0: array<real>, dst1: array?<real>, trans: bool)
    requires trans || size == 1
    requires |src0| == count0 * size && |src1| == count1 * size
    requires dst0.Length == (count0 + count1) * size
    requires dst1 != null ==> dst1 != dst0 && dst1.Length == (count0 + count1) * size
    modifies dst0, dst1
    ensures dst0[..] == Fused9Output(src0, src1, scale, bias, count0, count1, size, trans)
    ensures dst1 != null ==> dst1[..] == Concat(src0, src1, count0, count1, size, trans)
  {
    ghost var cat := Concat(src0, src1, count0, count1, size, trans);
    ghost var out := Fused9Output(src0, src1, scale, bias, count0, count1, size, trans);
    ConcatLength(src0, src1, count0, count1, size, trans);
    forall j | 0 <= j < size
      ensures PositionAgrees(out, cat, src0, src1, scale, bias, count0, count1, j)
      ensures j * count0 + count0 <= |src0| && j * count1 + count1 <= |src1|
    {
      Fused9FirstRowLast(src0, src1, scale, bias, count0, count1, size, trans, j);
      Fused9SecondRowLast(src0, src1, scale, bias, count0, count1, size, trans, j);
      Fused9SecondRowLastCopy(src0, src1, scale, bias, count0, count1, size, trans, j);
    }
    Fused9LastSweep(src0, src1, scale, bias, count0, count1, size, dst0, dst1, out, cat);
  }

  /** The position loop of `Fused9Last`, against outputs `out` and `cat`
      known position by position. */
  method Fused9LastSweep(src0: seq<real>, src1: seq<real>, scale: seq<real>, bias: seq<real>,
                         count0: nat, count1: nat, size: nat, dst0: array<real>, dst1: array?<real>,
                         ghost out: seq<real>, ghost cat: seq<real>)
    requires |out| == |cat| == dst0.Length == (count0 + count1) * size
    requires dst1 != null ==> dst1 != dst0 && dst1.Length == |cat|
    requires forall j :: 0 <= j < size ==>
      PositionAgrees(out, cat, src0, src1, scale, bias, count0, count1, j) &&
      j * count0 + count0 <= |src0| && j * count1 + count1 <= |src1|
    modifies dst0, dst1
    ensures dst0[..] == out
    ensures dst1 != null ==> dst1[..] == cat
  {
    var j := 0;
    while j < size
      invariant j <= size && j * (count0 + count1) <= |out|
      invariant forall k :: 0 <= k < j * (count0 + count1) ==> dst0[k] == out[k]
      invariant dst1 != null ==> forall k :: 0 <= k < j * (count0 + count1) ==> dst1[k] == cat[k]
    {
      MulLe(j + 1, size, count0 + count1);
      Fused9Position(src0, src1, scale, bias, count0, count1, dst0, dst1, j, out, cat);
      j := j + 1;
    }
    assert j * (count0 + count1) == |out|;
    assert dst0[..] == out;
    assert dst1 != null ==> dst1[..] == cat;
  }

  /** Channel-last position `j` of both outputs, written after a prefix that
      already agrees with them, extends that prefix by one position. */
  method Fused9Position(src0: seq<real>, src1: seq<real>, scale: seq<real>, bias: seq<real>,
                        count0: nat, count1: nat, dst0: array<real>, dst1: array?<real>, j: nat,
                        ghost out: seq<real>, ghost cat: seq<real>)
    requires |out| == |cat| == dst0.Length && (j + 1) * (count0 + count1) <= |out|
    requires dst1 != null ==> dst1 != dst0 && dst1.Length == |cat|
    requires PositionAgrees(out, cat, src0, src1, scale, bias, count0, count1, j)
    requires j * count0 + count0 <= |src0| && j * count1 + count1 <= |src1|
    requires forall k :: 0 <= k < j * (count0 + count1) ==> dst0[k] == out[k]
    requires dst1 != null ==> forall k :: 0 <= k < j * (count0 + count1) ==> dst1[k] == cat[k]
    modifies dst0, dst1
    ensures forall k :: 0 <= k < (j + 1) * (count0 + count1) ==> dst0[k] == out[k]
    ensures dst1 != null ==> forall k :: 0 <= k < (j + 1) * (count0 + count1) ==> dst1[k] == cat[k]
  {
    var at := j * (count0 + count1);
    assert (j + 1) * (count0 + count1) == at + count0 + count1;
    Fused9Step(src0, j * count0, dst0, dst1, at, count0, t => t, scale, bias, out, cat);
    Fused9Step(src1, j * count1, dst0, dst1, at + count0, count1, t => count0 + t, scale, bias, out, cat);
  }

  /** Channel-major: the rows of `src0`, then the rows of `src1`. */
  method Fused9Major(src0: seq<real>, src1: seq<real>, scale: seq<real>, bias: seq<real>,
                     count0: nat, count1: nat, size: nat, dst0: array<real>, dst1: array?<real>, trans: bool)
    requires !(trans || size == 1)
    requires |src0| == count0 * size && |src1| == count1 * size
    requires dst0.Length == (count0 + count1) * size
    requires dst1 != null ==> dst1 != dst0 && dst1.Length == (count0 + count1) * size
    modifies dst0, dst1
    ensures dst0[..] == Fused9Output(src0, src1, scale, bias, count0, count1, size, trans)
    ensures dst1 != null ==> dst1[..] == Concat(src0, src1, count0, count1, size, trans)
  {
    ghost var cat := Concat(src0, src1, count0, count1, size, trans);
    ghost var out := Fused9Output(src0, src1, scale, bias, count0, count1, size, trans);
    ConcatLength(src0, src1, count0, count1, size, trans);
    var i := 0;
    while i < count0
      invariant i <= count0 && i * size <= count0 * size
      invariant forall k :: 0 <= k < i * size ==> dst0[k] == out[k]
      invariant dst1 != null ==> forall k :: 0 <= k < i * size ==> dst1[k] == cat[k]
    {
      Fused9FirstRowMajor(src0, src1, scale, bias, count0, count1, size, trans, i);
      Fused9Step(src0, i * size, dst0, dst1, i * size, size, t => i, scale, bias, out, cat);
      assert (i + 1) * size == i * size + size;
      i := i + 1;
    }
    i := 0;
    while i < count1
      invariant i <= count1 && i * size <= count1 * size
      invariant forall k :: 0 <= k < count0 * size + i * size ==> dst0[k] == out[k]
      invariant dst1 != null ==> forall k :: 0 <= k < count0 * size + i * size ==> dst1[k] == cat[k]
    {
      Fused9SecondRowMajor(src0, src1, scale, bias, count0, count1, size, trans, i);
      Fused9Step(src1, i * size, dst0, dst1, count0 * size + i * size, size, t => count0 + i, scale, bias, out, cat);
      assert (i + 1) * size == i * size + size;
      i := i + 1;
    }
    assert dst0[..] == out;
    assert dst1 != null ==> dst1[..] == cat;
  }

  // ---------------------------------------------------------------------
  // Eltwise.

  /** Every source holds at least `size` elements. */
  predicate SourcesCover(src: seq<seq<real>>, count: nat, size: nat)
  {
    count <= |src| && forall i :: 0 <= i < count ==> size <= |src[i]|
  }

  /** Product, max or min of `count >= 2` sources: the first two combined,
      then each further source combined into `dst`. */
  method EltwiseLayerForwardFold(src: seq<seq<real>>, count: nat, size: nat, op: EltwiseOperation, dst: array<real>)
    requires count >= 2 && SourcesCover(src, count, size) && dst.Length == size
    modifies dst
    ensures forall j :: 0 <= j < size ==> dst[j] == Fold(op, src, count, j)
  {
    Unrolled4Row(src[0], 0, dst, 0, size, t => t, (x: real, k: nat, c: nat) => Combine(op, x, Source(src, 1, k)));
    var i := 2;
    while i < count
      invariant 2 <= i <= count
      invariant forall j :: 0 <= j < size ==> dst[j] == Fold(op, src, i, j)
    {
      var acc := dst[..];
      Unrolled4Row(acc, 0, dst, 0, size, t => t, (x: real, k: nat, c: nat) => Combine(op, x, Source(src, i, k)));
      i := i + 1;
    }
  }

  /** The weighted sum: `src0·w0 + src1·w1`, then `+= srci·wi`. */
  method EltwiseLayerForwardSum(src: seq<seq<real>>, weight: seq<real>, count: nat, size: nat, dst: array<real>)
    requires count >= 2 && SourcesCover(src, count, size) && |weight| >= count && dst.Length == size
    modifies dst
    ensures forall j :: 0 <= j < size ==> dst[j] == WeightedSum(src, weight, count, j)
  {
    var weight0, weight1 := weight[0], weight[1];
    Unrolled4Row(src[0], 0, dst, 0, size, t => t, (x: real, k: nat, c: nat) => x * weight0 + Source(src, 1, k) * weight1);
    forall j | 0 <= j < size
      ensures dst[j] == WeightedSum(src, weight, 2, j)
    {
      assert WeightedSum(src, weight, 1, j) == Source(src, 0, j) * weight0;
    }
    var i := 2;
    while i < count
      invariant 2 <= i <= count
      invariant forall j :: 0 <= j < size ==> dst[j] == WeightedSum(src, weight, i, j)
    {
      var acc := dst[..];
      var weighti := weight[i];
      Unrolled4Row(acc, 0, dst, 0, size, t => t, (x: real, k: nat, c: nat) => x + Source(src, i, k) * weighti);
      i := i + 1;
    }
  }

  /** The eltwise dispatcher. */
  method EltwiseLayerForward(src: seq<seq<real>>, weight: seq<real>, count: nat, size: nat, op: EltwiseOperation, dst: array<real>)
    requires count >= 2 && SourcesCover(src, count, size) && dst.Length == size
    requires op == Sum ==> |weight| >= count
    modifies dst
    ensures dst[..] == Eltwise(op, src, weight, count, size)
  {
    if op == Sum {
      EltwiseLayerForwardSum(src, weight, count, size, dst);
    } else {
      EltwiseLayerForwardFold(src, count, size, op, dst);
    }
  }

  // ---------------------------------------------------------------------
  // Inner product.

  /** `dst[i] = Σ_j src[j]·weight[i·size + j] + bias[i]`: four partial sums
      over the aligned part, the tail added to the first. */
  method InnerProductLayerForward(src: seq<real>, weight: seq<real>, bias: Option<seq<real>>, count: nat, size: nat, dst: array<real>)
    requires |src| >= size && |weight| >= count * size && dst.Length == count
    requires bias.Some? ==> |bias.value| >= count
    modifies dst
    ensures dst[..] == InnerProduct(src, weight, bias, count, size)
  {
    ghost var p := InnerProduct(src, weight, bias, count, size);
    var aligned := AlignLo(size, 4);
    var i := 0;
    while i < count
      invariant i <= count
      invariant forall r :: 0 <= r < i ==> dst[r] == p[r]
    {
      MulLe(i + 1, count, size);
      var d := RowDot(src, weight, i * size, size, aligned);
      dst[i] := d + (if bias.Some? then bias.value[i] else 0.0);
      i := i + 1;
    }
    assert dst[..] == p;
  }

  /** The dot product of one weight row, as the scalar kernel accumulates it. */
  method RowDot(src: seq<real>, weight: seq<real>, off: nat, size: nat, aligned: nat) returns (d: real)
    requires aligned == AlignLo(size, 4) && |src| >= size && |weight| >= off + size
    ensures d == Dot(src, weight, off, 0, size)
  {
    var s0, s1, s2, s3 := 0.0, 0.0, 0.0, 0.0;
    var j := 0;
    ghost var m := 0;
    while j < aligned
      invariant j == 4 * m && j <= aligned
      invariant s0 == Strided(src, weight, off, 0, m) && s1 == Strided(src, weight, off, 1, m)
      invariant s2 == Strided(src, weight, off, 2, m) && s3 == Strided(src, weight, off, 3, m)
    {
      AlignedStep(j, aligned, 4);
      s0 := s0 + src[j + 0] * weight[off + j + 0];
      s1 := s1 + src[j + 1] * weight[off + j + 1];
      s2 := s2 + src[j + 2] * weight[off + j + 2];
      s3 := s3 + src[j + 3] * weight[off + j + 3];
      j := j + 4;
      m := m + 1;
    }
    StridedSumsAddUp(src, weight, off, m);
    ghost var head := s0;
    while j < size
      invariant aligned <= j <= size
      invariant s0 == head + Dot(src, weight, off, aligned, j)
    {
      s0 := s0 + src[j] * weight[off + j];
      j := j + 1;
    }
    d := s0 + s1 + s2 + s3;
    DotSplit(src, weight, off, 0, aligned, size);
  }

  // ---------------------------------------------------------------------
  // Cross-channel local response normalization.

  /** `dst = src·pow(k0 + k1·Σ window², k2)` with `k = [k0, k1, k2]`; the
      window of channel `i` spans channels `i - half .. i + half`. The
      channel-last loops need `count >= 2·half + 1`, the channel-major ones
      `half <= count`; otherwise the kernel reads outside the tensor. */
  method LrnLayerCrossChannels(src: seq<real>, half: nat, count: nat, size: nat, k: seq<real>, pow: (real, real) -> real,
                               dst: array<real>, trans: bool)
    requires |src| == count * size && dst.Length == count * size && |k| >= 3
    requires size > 0 && trans ==> count >= 2 * half + 1
    requires size > 0 && !trans ==> half <= count
    modifies dst
    ensures dst[..] == Lrn(src, half, count, size, k[0], k[1], k[2], pow, trans)
  {
    var k0, k1, k2 := k[0], k[1], k[2];
    ghost var l := Lrn(src, half, count, size, k0, k1, k2, pow, trans);
    LrnLength(src, half, count, size, k0, k1, k2, pow, trans);
    if trans {
      forall j, i | 0 <= j < size && 0 <= i < count
        ensures LrnLastAt(l, src, half, count, k0, k1, k2, pow, j, i)
      {
        LrnCellLast(src, half, count, size, k0, k1, k2, pow, j, i);
      }
      var j := 0;
      while j < size
        invariant j <= size && j * count <= count * size
        invariant forall e :: 0 <= e < j * count ==> dst[e] == l[e]
      {
        MulLe(j + 1, size, count);
        ghost var d0 := dst[..];
        LrnRowLast(src, half, count, k0, k1, k2, pow, dst, j * count);
        LastRowMeetsSpec(d0, dst[..], l, src, half, count, size, k0, k1, k2, pow, j);
        j := j + 1;
      }
      assert j * count == count * size;
      assert dst[..] == l;
    } else {
      forall i, t | 0 <= i < count && 0 <= t < size
        ensures LrnMajorAt(l, src, half, count, size, k0, k1, k2, pow, i, t)
      {
        LrnCellMajor(src, half, count, size, k0, k1, k2, pow, i, t);
      }
      LrnMajor(src, half, count, size, k0, k1, k2, pow, dst, l);
      assert dst[..] == l;
    }
  }

  /** The first `n` channels of the row at `off` of `d` hold the channel-last
      normalization of that row. */
  ghost predicate LastRowDone(d: seq<real>, src: seq<real>, half: nat, count: nat,
                              k0: real, k1: real, k2: real, pow: (real, real) -> real, off: nat, n: nat)
  {
    forall e :: off <= e < off + n && e < |d| ==>
      d[e] == Normalize(At(src, e), Window(src, half, count, off, 1, e - off), k0, k1, k2, pow)
  }

  /** One position of the channel-last normalization: a running window sum
      grows over the first `half + 1` channels, slides, then shrinks. */
  method LrnRowLast(src: seq<real>, half: nat, count: nat, k0: real, k1: real, k2: real, pow: (real, real) -> real,
                    dst: array<real>, off: nat)
    requires off + count <= |src| && off + count <= dst.Length && count >= 2 * half + 1
    modifies dst
    ensures dst[..off] == old(dst[..off])
    ensures LastRowDone(dst[..], src, half, count, k0, k1, k2, pow, off, count)
  {
    var sum := 0.0;
    var i := 0;
    while i < half
      invariant i <= half && sum == SquareSum(src, off, 1, 0, i)
    {
      sum := sum + Square(src[off + i]);
      i := i + 1;
    }
    assert sum == Window(src, half, count, off, 1, -1);
    sum := LastGrow(src, half, count, k0, k1, k2, pow, dst, off, sum);
    sum := LastSlide(src, half, count, k0, k1, k2, pow, dst, off, sum);
    LastShrink(src, half, count, k0, k1, k2, pow, dst, off, sum);
  }

  /** Channels `0 .. half`: the window only grows. */
  method LastGrow(src: seq<real>, half: nat, count: nat, k0: real, k1: real, k2: real, pow: (real, real) -> real,
                  dst: array<real>, off: nat, sum0: real) returns (sum: real)
    requires off + count <= |src| && off + count <= dst.Length && count >= 2 * half + 1
    requires sum0 == Window(src, half, count, off, 1, -1)
    modifies dst
    ensures sum == Window(src, half, count, off, 1, half)
    ensures dst[..off] == old(dst[..off]) && LastRowDone(dst[..], src, half, count, k0, k1, k2, pow, off, half + 1)
  {
    sum := sum0;
    var i := 0;
    while i < half + 1
      invariant i <= half + 1 && sum == Window(src, half, count, off, 1, i - 1)
      invariant dst[..off] == old(dst[..off]) && LastRowDone(dst[..], src, half, count, k0, k1, k2, pow, off, i)
    {
      sum := sum + Square(src[off + i + half]);
      SlideLast(src, half, count, off, i);
      LastStep(src, half, count, k0, k1, k2, pow, dst, off, i, sum);
      i := i + 1;
    }
  }

  /** Channels `half + 1 .. count - half - 1`: the window slides. */
  method LastSlide(src: seq<real>, half: nat, count: nat, k0: real, k1: real, k2: real, pow: (real, real) -> real,
                   dst: array<real>, off: nat, sum0: real) returns (sum: real)
    requires off + count <= |src| && off + count <= dst.Length && count >= 2 * half + 1
    requires sum0 == Window(src, half, count, off, 1, half)
    requires LastRowDone(dst[..], src, half, count, k0, k1, k2, pow, off, half + 1)
    modifies dst
    ensures sum == Window(src, half, count, off, 1, count - half - 1)
    ensures dst[..off] == old(dst[..off]) && LastRowDone(dst[..], src, half, count, k0, k1, k2, pow, off, count - half)
  {
    sum := sum0;
    var i := half + 1;
    while i < count - half
      invariant half + 1 <= i && i <= count - half && sum == Window(src, half, count, off, 1, i - 1)
      invariant dst[..off] == old(dst[..off]) && LastRowDone(dst[..], src, half, count, k0, k1, k2, pow, off, i)
    {
      sum := sum + Square(src[off + i + half]);
      sum := sum - Square(src[off + i - half - 1]);
      SlideLast(src, half, count, off, i);
      LastStep(src, half, count, k0, k1, k2, pow, dst, off, i, sum);
      i := i + 1;
    }
  }

  /** Channels `count - half .. count - 1`: the window only shrinks. */
  method LastShrink(src: seq<real>, half: nat, count: nat, k0: real, k1: real, k2: real, pow: (real, real) -> real,
                    dst: array<real>, off: nat, sum0: real)
    requires off + count <= |src| && off + count <= dst.Length && count >= 2 * half + 1
    requires sum0 == Window(src, half, count, off, 1, count - half - 1)
    requires LastRowDone(dst[..], src, half, count, k0, k1, k2, pow, off, count - half)
    modifies dst
    ensures dst[..off] == old(dst[..off]) && LastRowDone(dst[..], src, half, count, k0, k1, k2, pow, off, count)
  {
    var sum := sum0;
    var i := count - half;
    while i < count
      invariant count - half <= i <= count && sum == Window(src, half, count, off, 1, i - 1)
      invariant dst[..off] == old(dst[..off]) && LastRowDone(dst[..], src, half, count, k0, k1, k2, pow, off, i)
    {
      assert i > half && i + half >= count;
      sum := sum - Square(src[off + i - half - 1]);
      SlideLast(src, half, count, off, i);
      LastStep(src, half, count, k0, k1, k2, pow, dst, off, i, sum);
      i := i + 1;
    }
  }

  /** `WindowSlide` within one channel-last row, with the reads the loops
      make. */
  lemma SlideLast(src: seq<real>, half: nat, count: nat, off: nat, i: nat)
    requires i < count && off + count <= |src|
    ensures Window(src, half, count, off, 1, i)
         == Window(src, half, count, off, 1, i - 1)
          + (if i + half < count then Square(src[off + i + half]) else 0.0)
          - (if i > half then Square(src[off + i - half - 1]) else 0.0)
  {
    WindowSlide(src, half, count, off, 1, i);
  }

  /** Writes channel `i` of the row at `off` from its window sum. */
  method LastStep(src: seq<real>, half: nat, count: nat, k0: real, k1: real, k2: real, pow: (real, real) -> real,
                  dst: array<real>, off: nat, i: nat, sum: real)
    requires off + count <= |src| && off + count <= dst.Length && i < count
    requires sum == Window(src, half, count, off, 1, i)
    requires LastRowDone(dst[..], src, half, count, k0, k1, k2, pow, off, i)
    modifies dst
    ensures dst[..off] == old(dst[..off])
    ensures LastRowDone(dst[..], src, half, count, k0, k1, k2, pow, off, i + 1)
  {
    dst[off + i] := Normalize(src[off + i], sum, k0, k1, k2, pow);
  }

  /** The row at `j·count` written by the channel-last loop, after rows that
      already agree with the normalization, extends the agreeing prefix. */
  lemma LastRowMeetsSpec(d0: seq<real>, d: seq<real>, l: seq<real>, src: seq<real>, half: nat, count: nat, size: nat,
                         k0: real, k1: real, k2: real, pow: (real, real) -> real, j: nat)
    requires j < size && |d0| == |d| == |l| == count * size && (j + 1) * count <= count * size
    requires forall q, c :: 0 <= q < size && 0 <= c < count ==> LrnLastAt(l, src, half, count, k0, k1, k2, pow, q, c)
    requires forall e :: 0 <= e < j * count ==> d0[e] == l[e]
    requires d[..j * count] == d0[..j * count]
    requires LastRowDone(d, src, half, count, k0, k1, k2, pow, j * count, count)
    ensures forall e :: 0 <= e < (j + 1) * count ==> d[e] == l[e]
  {
    forall e | 0 <= e < (j + 1) * count
      ensures d[e] == l[e]
    {
      if e < j * count {
        assert d[e] == d[..j * count][e];
      } else {
        assert LrnLastAt(l, src, half, count, k0, k1, k2, pow, j, e - j * count);
      }
    }
  }

  /** The channel-major normalization: one running sum per spatial position,
      kept in a buffer of `size` sums; an absent neighbour channel reads a
      buffer of zeros. */
  method LrnMajor(src: seq<real>, half: nat, count: nat, size: nat, k0: real, k1: real, k2: real, pow: (real, real) -> real,
                  dst: array<real>, ghost l: seq<real>)
    requires |src| == count * size && dst.Length == count * size && (size > 0 ==> half <= count)
    requires |l| == count * size
    requires forall c, q :: 0 <= c < count && 0 <= q < size ==> LrnMajorAt(l, src, half, count, size, k0, k1, k2, pow, c, q)
    modifies dst
    ensures forall e :: 0 <= e < count * size ==> dst[e] == l[e]
  {
    var sum := new real[size](_ => 0.0);
    LrnWarmUpMajor(src, half, count, size, sum);
    var i := 0;
    while i < count
      invariant i <= count && i * size <= count * size
      invariant SumsAre(sum[..], src, half, count, size, i - 1, 0, size)
      invariant forall e :: 0 <= e < i * size ==> dst[e] == l[e]
    {
      MulLe(i + 1, count, size);
      assert (i + 1) * size == i * size + size;
      ghost var d0 := dst[..];
      LrnChannelMajor(src, half, count, size, k0, k1, k2, pow, dst, sum, i);
      MajorRowMeetsSpec(d0, dst[..], l, src, half, count, size, k0, k1, k2, pow, i);
      i := i + 1;
    }
  }

  /** Row `i` written by the channel-major loop, after rows that already
      agree with the normalization, extends the agreeing prefix. */
  lemma MajorRowMeetsSpec(d0: seq<real>, d: seq<real>, l: seq<real>, src: seq<real>, half: nat, count: nat, size: nat,
                          k0: real, k1: real, k2: real, pow: (real, real) -> real, i: nat)
    requires i < count && |d0| == |d| == |l| == count * size && i * size + size <= count * size
    requires forall c, q :: 0 <= c < count && 0 <= q < size ==> LrnMajorAt(l, src, half, count, size, k0, k1, k2, pow, c, q)
    requires forall e :: 0 <= e < i * size ==> d0[e] == l[e]
    requires d[..i * size] == d0[..i * size]
    requires MajorRowDone(d, src, half, count, size, k0, k1, k2, pow, i, size)
    ensures forall e :: 0 <= e < (i + 1) * size ==> d[e] == l[e]
  {
    assert (i + 1) * size == i * size + size;
    forall e | 0 <= e < (i + 1) * size
      ensures d[e] == l[e]
    {
      if e < i * size {
        assert d[e] == d[..i * size][e];
      } else {
        assert LrnMajorAt(l, src, half, count, size, k0, k1, k2, pow, i, e - i * size);
      }
    }
  }

  /** Before channel 0, every position's sum holds the squares of the first
      `half` channels: the window of channel `-1`. */
  method LrnWarmUpMajor(src: seq<real>, half: nat, count: nat, size: nat, sum: array<real>)
    requires |src| == count * size && sum.Length == size && (size > 0 ==> half <= count)
    requires forall t :: 0 <= t < size ==> sum[t] == 0.0
    modifies sum
    ensures SumsAre(sum[..], src, half, count, size, -1, 0, size)
  {
    var i := 0;
    while i < half && size > 0
      invariant i <= half && (size > 0 ==> i <= count)
      invariant forall t :: 0 <= t < size ==> sum[t] == SquareSum(src, t, size, 0, i)
    {
      RowInside(i, size - 1, size, count);
      var t := 0;
      while t < size
        invariant t <= size
        invariant forall q :: 0 <= q < t ==> sum[q] == SquareSum(src, q, size, 0, i + 1)
        invariant forall q :: t <= q < size ==> sum[q] == SquareSum(src, q, size, 0, i)
      {
        RowInside(i, t, size, count);
        sum[t] := sum[t] + Square(src[i * size + t]);
        t := t + 1;
      }
      i := i + 1;
    }
  }

  /** Positions `from .. to` of the channel-major sums hold the windows of
      channel `i`. */
  ghost predicate SumsAre(s: seq<real>, src: seq<real>, half: nat, count: nat, size: nat, i: int, from: nat, to: nat)
  {
    forall q :: from <= q < to && q < |s| ==> s[q] == Window(src, half, count, q, size, i)
  }

  /** The first `n` positions of row `i` of `d` hold the normalized channel
      `i`. */
  ghost predicate MajorRowDone(d: seq<real>, src: seq<real>, half: nat, count: nat, size: nat,
                               k0: real, k1: real, k2: real, pow: (real, real) -> real, i: nat, n: nat)
  {
    forall e :: i * size <= e < i * size + n && e < |d| ==>
      d[e] == Normalize(At(src, e), Window(src, half, count, e - i * size, size, i), k0, k1, k2, pow)
  }

  /** Channel `i` of the channel-major normalization: every position's sum
      slides from the window of `i - 1` to that of `i`, and row `i` of `dst`
      receives the normalized channel. */
  method LrnChannelMajor(src: seq<real>, half: nat, count: nat, size: nat, k0: real, k1: real, k2: real, pow: (real, real) -> real,
                         dst: array<real>, sum: array<real>, i: nat)
    requires |src| == count * size && dst.Length == count * size && sum.Length == size && sum != dst && i < count
    requires SumsAre(sum[..], src, half, count, size, i - 1, 0, size)
    modifies dst, sum
    ensures SumsAre(sum[..], src, half, count, size, i, 0, size)
    ensures dst[..i * size] == old(dst[..i * size])
    ensures MajorRowDone(dst[..], src, half, count, size, k0, k1, k2, pow, i, size)
  {
    MulLe(i + 1, count, size);
    var t := 0;
    while t < size
      invariant t <= size
      invariant SumsAre(sum[..], src, half, count, size, i, 0, t)
      invariant SumsAre(sum[..], src, half, count, size, i - 1, t, size)
      invariant dst[..i * size] == old(dst[..i * size])
      invariant MajorRowDone(dst[..], src, half, count, size, k0, k1, k2, pow, i, t)
    {
      ghost var s0, d0 := sum[..], dst[..];
      MajorStep(src, half, count, size, k0, k1, k2, pow, dst, sum, i, t);
      MajorStepSums(s0, src, half, count, size, i, t);
      MajorStepRow(d0, src, half, count, size, k0, k1, k2, pow, i, t);
      t := t + 1;
    }
  }

  /** One step of the channel-major loop moves the boundary between the
      running sums of channels `i` and `i - 1` past position `t`. */
  lemma MajorStepSums(s: seq<real>, src: seq<real>, half: nat, count: nat, size: nat, i: nat, t: nat)
    requires |s| == size && t < size
    requires SumsAre(s, src, half, count, size, i, 0, t)
    requires SumsAre(s, src, half, count, size, i - 1, t, size)
    ensures var s' := s[t := Window(src, half, count, t, size, i)];
            SumsAre(s', src, half, count, size, i, 0, t + 1) && SumsAre(s', src, half, count, size, i - 1, t + 1, size)
  {
  }

  /** One step of the channel-major loop writes output cell `t` of row `i`
      and leaves the rows before it alone. */
  lemma MajorStepRow(d: seq<real>, src: seq<real>, half: nat, count: nat, size: nat,
                     k0: real, k1: real, k2: real, pow: (real, real) -> real, i: nat, t: nat)
    requires t < size && i * size + t < |d|
    requires MajorRowDone(d, src, half, count, size, k0, k1, k2, pow, i, t)
    ensures var d' := d[i * size + t := Normalize(At(src, i * size + t), Window(src, half, count, t, size, i), k0, k1, k2, pow)];
            d'[..i * size] == d[..i * size] && MajorRowDone(d', src, half, count, size, k0, k1, k2, pow, i, t + 1)
  {
  }

  /** Position `t` of channel `i`: slide its sum and write its output. */
  method MajorStep(src: seq<real>, half: nat, count: nat, size: nat, k0: real, k1: real, k2: real, pow: (real, real) -> real,
                   dst: array<real>, sum: array<real>, i: nat, t: nat)
    requires |src| == count * size && dst.Length == count * size && sum.Length == size && sum != dst
    requires i < count && t < size
    requires sum[t] == Window(src, half, count, t, size, i - 1)
    modifies dst, sum
    ensures sum[..] == old(sum[..])[t := Window(src, half, count, t, size, i)]
    ensures i * size + t < dst.Length
    ensures dst[..] == old(dst[..])[i * size + t := Normalize(At(src, i * size + t), Window(src, half, count, t, size, i), k0, k1, k2, pow)]
  {
    var s := SlideMajor(src, half, count, size, sum[t], i, t);
    sum[t] := s;
    RowInside(i, t, size, count);
    dst[i * size + t] := Normalize(src[i * size + t], s, k0, k1, k2, pow);
  }

  /** One running sum of the channel-major loop, moved from channel `i - 1` to
      channel `i`: it adds the square of channel `i + half` and drops that of
      channel `i - half - 1`, reading zero for a channel outside the tensor. */
  method SlideMajor(src: seq<real>, half: nat, count: nat, size: nat, s0: real, i: nat, t: nat) returns (s: real)
    requires |src| == count * size && i < count && t < size
    requires s0 == Window(src, half, count, t, size, i - 1)
    ensures s == Window(src, half, count, t, size, i)
  {
    var pos, neg := NeighboursMajor(src, half, count, size, i, t);
    WindowSlide(src, half, count, t, size, i);
    s := s0 + Square(pos);
    s := s - Square(neg);
  }

  /** The two channels of column `t` that enter and leave the window of
      channel `i`, or zero where that channel is outside the tensor. */
  method NeighboursMajor(src: seq<real>, half: nat, count: nat, size: nat, i: nat, t: nat) returns (pos: real, neg: real)
    requires |src| == count * size && i < count && t < size
    ensures pos == if i + half < count then At(src, t + (i + half) * size) else 0.0
    ensures neg == if i > half then At(src, t + (i - half - 1) * size) else 0.0
  {
    pos, neg := 0.0, 0.0;
    if i + half < count {
      var c := i + half;
      RowInside(c, t, size, count);
      pos := src[c * size + t];
    }
    if i > half {
      var c: nat := i - half - 1;
      RowInside(c, t, size, count);
      neg := src[c * size + t];
    }
  }
}
