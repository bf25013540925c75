/** Tensor layouts. A per-channel kernel sees its tensor as `channels × spatial`
    floats stored in one of three orders: channel-major (NCHW, one contiguous
    row per channel), channel-last (NHWC, the channels of one position are
    contiguous) and packed (NCHWxc: blocks of `n` channels, each block stored
    position by position with the `n` channels of a position adjacent). */
module Layout {
  /** `SimdTensorFormatType` as the dispatchers see it; every other value of the
      enumeration falls into `OtherFormat`. */
  datatype TensorFormat = Nchw | Nhwc | Nchw4c | Nchw8c | Nchw16c | OtherFormat

  /** The storage order of a `channels × spatial` tensor. */
  datatype Order = ChannelMajor | ChannelLast | Packed(n: nat)

  /** A packed order needs a non-empty block that divides the channel count. */
  predicate WellFormed(o: Order, channels: nat)
  {
    o.Packed? ==> o.n > 0 && channels % o.n == 0
  }

  /** The cell `v[i]`, or zero past either end. Kernel formulas are written with
      it so that they are total; within their preconditions it is `v[i]`. */
  function At(v: seq<real>, i: int): real
  {
    if 0 <= i < |v| then v[i] else 0.0
  }

  /** The channel of the flat index `k`. */
  function ChannelOf(o: Order, k: nat, channels: nat, spatial: nat): nat
  {
    match o
    case ChannelMajor => if spatial == 0 then 0 else k / spatial
    case ChannelLast => if channels == 0 then 0 else k % channels
    case Packed(n) => if spatial * n == 0 then 0 else (k / (spatial * n)) * n + k % n
  }

  /** The flat index of channel `c` at position `s`. */
  function IndexOf(o: Order, c: nat, s: nat, channels: nat, spatial: nat): nat
  {
    match o
    case ChannelMajor => c * spatial + s
    case ChannelLast => s * channels + c
    case Packed(n) => if n == 0 then 0 else (c / n) * spatial * n + s * n + c % n
  }

  /** The order the fused layers, PReLU and the scale-by-count kernels pick:
      channel-last when the caller says so, or when the tensor has a single
      position, unless there is a single channel. */
  function FusedOrder(trans: bool, count: nat, size: nat): Order
  {
    if (trans || size == 1) && count != 1 then ChannelLast else ChannelMajor
  }

  /** Division of naturals; a zero divisor, which no index reaches, gives 0. */
  function Quot(k: nat, d: nat): (q: nat)
    ensures d > 0 ==> q * d <= k < q * d + d
  {
    if d == 0 then 0 else k / d
  }

  /** The remainder matching `Quot`. */
  function Rem(k: nat, d: nat): (r: nat)
    ensures d > 0 ==> r < d && k == Quot(k, d) * d + r
  {
    if d == 0 then 0 else k % d
  }

  /** Division by a positive divisor is determined by any quotient/remainder
      pair. */
  lemma DivMod(k: nat, q: nat, r: nat, d: nat)
    requires d > 0 && r < d && k == q * d + r
    ensures k / d == q && k % d == r
  {
    var t := q - k / d;
    assert t * d == k % d - r;
  }

  /** `DivMod` for `Quot` and `Rem`. */
  lemma QuotRem(k: nat, q: nat, r: nat, d: nat)
    requires d > 0 && r < d && k == q * d + r
    ensures Quot(k, d) == q && Rem(k, d) == r
  {
    DivMod(k, q, r, d);
  }

  /** Multiplication is monotone. */
  lemma MulLe(a: nat, b: nat, c: nat)
    requires a <= b
    ensures a * c <= b * c
  {
  }

  /** Row `r` of width `w` ends no later than a tensor of `rows` rows. */
  lemma RowInside(r: nat, x: nat, w: nat, rows: nat)
    requires r < rows && x < w
    ensures r * w + x < rows * w
  {
    MulLe(r + 1, rows, w);
  }

  /** Every cell of a well-formed `channels × spatial` tensor lies in the tensor
      and is read back as its own channel. */
  lemma IndexOfPlacement(o: Order, c: nat, s: nat, channels: nat, spatial: nat)
    requires WellFormed(o, channels) && c < channels && s < spatial
    ensures IndexOf(o, c, s, channels, spatial) < channels * spatial
    ensures ChannelOf(o, IndexOf(o, c, s, channels, spatial), channels, spatial) == c
  {
    match o
    case ChannelMajor =>
      RowInside(c, s, spatial, channels);
      DivMod(c * spatial + s, c, s, spatial);
    case ChannelLast =>
      RowInside(s, c, channels, spatial);
      DivMod(s * channels + c, s, c, channels);
    case Packed(n) =>
      PackedPlacement(c, s, n, channels, spatial);
  }

  /** The packed case of `IndexOfPlacement`. */
  lemma PackedPlacement(c: nat, s: nat, n: nat, channels: nat, spatial: nat)
    requires n > 0 && channels % n == 0 && c < channels && s < spatial
    ensures IndexOf(Packed(n), c, s, channels, spatial) < channels * spatial
    ensures ChannelOf(Packed(n), IndexOf(Packed(n), c, s, channels, spatial), channels, spatial) == c
  {
    var b := c / n;
    var inner := s * n + c % n;
    var k := b * (spatial * n) + inner;
    RowInside(s, c % n, n, spatial);
    assert IndexOf(Packed(n), c, s, channels, spatial) == k;
    DivMod(k, b, inner, spatial * n);
    assert k == (b * spatial + s) * n + c % n;
    DivMod(k, b * spatial + s, c % n, n);
    DivMod(c, b, c % n, n);
    PackedBlockInside(c, n, channels);
    MulLe(b + 1, channels / n, spatial * n);
    PackedSize(n, channels, spatial);
  }

  /** A packed tensor holds `channels / n` blocks of `spatial · n` cells. */
  lemma PackedSize(n: nat, channels: nat, spatial: nat)
    requires n > 0 && channels % n == 0
    ensures (channels / n) * (spatial * n) == channels * spatial
  {
    DivMod(channels, channels / n, 0, n);
    assert (channels / n) * (spatial * n) == ((channels / n) * n) * spatial;
  }

  /** The block of channel `c` ends inside the channel range. */
  lemma PackedBlockInside(c: nat, n: nat, channels: nat)
    requires n > 0 && channels % n == 0 && c < channels
    ensures c / n + 1 <= channels / n
  {
    DivMod(channels, channels / n, 0, n);
  }

  /** Every flat index of a well-formed tensor names a channel of it. */
  lemma ChannelOfBound(o: Order, k: nat, channels: nat, spatial: nat)
    requires WellFormed(o, channels) && k < channels * spatial
    ensures ChannelOf(o, k, channels, spatial) < channels
  {
    assert channels > 0 && spatial > 0;
    match o
    case ChannelMajor =>
      if k / spatial >= channels {
        MulLe(channels, k / spatial, spatial);
      }
    case ChannelLast =>
    case Packed(n) =>
      var b := k / (spatial * n);
      PackedSize(n, channels, spatial);
      if b >= channels / n {
        MulLe(channels / n, b, spatial * n);
      }
      MulLe(b + 1, channels / n, n);
  }
}
