/** The scalar max pooling kernel (`Simd::Base::SynetPoolingForwardMax`):
    for every output position the maximum of the clamped window, started at
    `-FLT_MAX`. Channel-last storage folds a whole row of channels at once;
    channel-major storage folds one channel's window into a scalar. */
module BasePooling {
  import opened Layout
  import opened Formulas
  import opened Reference

  /** Cell `(c, h, w)` of a channel-major `C × H × W` tensor is inside it. */
  lemma ChwInside(c: nat, h: nat, w: nat, channels: nat, height: nat, width: nat)
    requires c < channels && h < height && w < width
    ensures (c * height + h) * width + w < channels * height * width
  {
    RowInside(c, h, height, channels);
    RowInside(c * height + h, w, width, channels * height);
  }

  /** Cell `(c, h, w)` of a channel-last `H × W × C` tensor is inside it. */
  lemma HwcInside(c: nat, h: nat, w: nat, channels: nat, height: nat, width: nat)
    requires c < channels && h < height && w < width
    ensures (h * width + w) * channels + c < channels * height * width
  {
    RowInside(h, w, width, height);
    RowInside(h * width + w, c, channels, height * width);
    assert height * width * channels == channels * height * width;
  }

  // ---------------------------------------------------------------------
  // Channel-major: one scalar accumulator per output.

  /** Row `h` of channel `c`'s window, columns `w0 .. w1-1`, folded into `acc`. */
  method PoolRowMax(src: seq<real>, srcC: nat, srcH: nat, srcW: nat, c: nat, h: nat, acc: real, w0: nat, w1: nat)
    returns (m: real)
    requires |src| == srcC * srcH * srcW && c < srcC && h < srcH && (w0 < w1 ==> w1 <= srcW)
    ensures m == FoldCols(ChwImage(src, srcH, srcW), c, h, acc, w0, w1)
  {
    m := acc;
    var w := w0;
    while w < w1
      invariant w0 <= w && (w == w0 || w <= w1)
      invariant m == FoldCols(ChwImage(src, srcH, srcW), c, h, acc, w0, w)
    {
      ChwInside(c, h, w, srcC, srcH, srcW);
      m := Max(m, src[(c * srcH + h) * srcW + w]);
      w := w + 1;
    }
  }

  /** Channel `c`'s window `[h0, h1) × [w0, w1)`, row by row, from `-FLT_MAX`. */
  method PoolWindowMax(src: seq<real>, srcC: nat, srcH: nat, srcW: nat, c: nat, h0: nat, h1: nat, w0: nat, w1: nat)
    returns (m: real)
    requires |src| == srcC * srcH * srcW && c < srcC
    requires (h0 < h1 ==> h1 <= srcH) && (w0 < w1 ==> w1 <= srcW)
    ensures m == FoldRows(ChwImage(src, srcH, srcW), c, Bottom, h0, h1, w0, w1)
  {
    m := Bottom;
    var h := h0;
    while h < h1
      invariant h0 <= h && (h == h0 || h <= h1)
      invariant m == FoldRows(ChwImage(src, srcH, srcW), c, Bottom, h0, h, w0, w1)
    {
      m := PoolRowMax(src, srcC, srcH, srcW, c, h, m, w0, w1);
      h := h + 1;
    }
  }

  /** Row `ph` of channel `c` of `p` holds, output by output, the pooled
      values of channel-major storage. */
  ghost predicate PoolChwRowAt(p: seq<real>, src: seq<real>, srcC: nat, srcH: nat, srcW: nat, kernelY: nat, kernelX: nat,
                               strideY: nat, strideX: nat, padY: nat, padX: nat, dstH: nat, dstW: nat, c: nat, ph: nat)
  {
    (c * dstH + ph) * dstW + dstW <= |p| &&
    forall pw :: 0 <= pw < dstW ==>
      At(p, (c * dstH + ph) * dstW + pw) == PoolAt(ChwImage(src, srcH, srcW), c, ph, pw, kernelY, kernelX, strideY, strideX, padY, padX, srcH, srcW)
  }

  /** `PoolChw` row by row. */
  lemma PoolChwRows(src: seq<real>, srcC: nat, srcH: nat, srcW: nat, kernelY: nat, kernelX: nat, strideY: nat, strideX: nat,
                    padY: nat, padX: nat, dstH: nat, dstW: nat, c: nat, ph: nat)
    requires c < srcC && ph < dstH
    ensures PoolChwRowAt(PoolChw(src, srcC, srcH, srcW, kernelY, kernelX, strideY, strideX, padY, padX, dstH, dstW),
                         src, srcC, srcH, srcW, kernelY, kernelX, strideY, strideX, padY, padX, dstH, dstW, c, ph)
  {
    var p := PoolChw(src, srcC, srcH, srcW, kernelY, kernelX, strideY, strideX, padY, padX, dstH, dstW);
    assert |p| == srcC * dstH * dstW;
    if dstW > 0 {
      PoolChwAt(src, srcC, srcH, srcW, kernelY, kernelX, strideY, strideX, padY, padX, dstH, dstW, c, ph, dstW - 1);
    }
    forall pw | 0 <= pw < dstW
      ensures At(p, (c * dstH + ph) * dstW + pw) == PoolAt(ChwImage(src, srcH, srcW), c, ph, pw, kernelY, kernelX, strideY, strideX, padY, padX, srcH, srcW)
    {
      PoolChwAt(src, srcC, srcH, srcW, kernelY, kernelX, strideY, strideX, padY, padX, dstH, dstW, c, ph, pw);
    }
  }

  /** Output row `ph` of channel `c`, channel-major, after the rows before it. */
  method PoolRowChw(src: seq<real>, srcC: nat, srcH: nat, srcW: nat, kernelY: nat, kernelX: nat, strideY: nat, strideX: nat,
                    padY: nat, padX: nat, dst: array<real>, dstH: nat, dstW: nat, c: nat, ph: nat, row: nat, ghost p: seq<real>)
    requires |src| == srcC * srcH * srcW && c < srcC && row == (c * dstH + ph) * dstW && dst.Length == |p|
    requires PoolChwRowAt(p, src, srcC, srcH, srcW, kernelY, kernelX, strideY, strideX, padY, padX, dstH, dstW, c, ph)
    requires forall k :: 0 <= k < row ==> dst[k] == p[k]
    modifies dst
    ensures forall k :: 0 <= k < row + dstW ==> dst[k] == p[k]
  {
    var h0, h1 := WindowStart(ph, strideY, padY), WindowEnd(ph, strideY, padY, kernelY, srcH);
    var pw := 0;
    while pw < dstW
      invariant pw <= dstW
      invariant forall k :: 0 <= k < row + pw ==> dst[k] == p[k]
    {
      var m := PoolWindowMax(src, srcC, srcH, srcW, c, h0, h1, WindowStart(pw, strideX, padX), WindowEnd(pw, strideX, padX, kernelX, srcW));
      assert At(p, row + pw) == PoolAt(ChwImage(src, srcH, srcW), c, ph, pw, kernelY, kernelX, strideY, strideX, padY, padX, srcH, srcW);
      dst[row + pw] := m;
      pw := pw + 1;
    }
  }

  /** The rows of channel `c`, channel-major, after the channels before it. */
  method PoolChannelChw(src: seq<real>, srcC: nat, srcH: nat, srcW: nat, kernelY: nat, kernelX: nat, strideY: nat, strideX: nat,
                        padY: nat, padX: nat, dst: array<real>, dstH: nat, dstW: nat, c: nat, start: nat, ghost p: seq<real>)
    requires |src| == srcC * srcH * srcW && c < srcC && start == c * (dstH * dstW)
    requires dst.Length == |p| && start + dstH * dstW <= |p|
    requires forall ph :: 0 <= ph < dstH ==>
      PoolChwRowAt(p, src, srcC, srcH, srcW, kernelY, kernelX, strideY, strideX, padY, padX, dstH, dstW, c, ph)
    requires forall k :: 0 <= k < start ==> dst[k] == p[k]
    modifies dst
    ensures forall k :: 0 <= k < start + dstH * dstW ==> dst[k] == p[k]
  {
    var ph, row := 0, start;
    while ph < dstH
      invariant ph <= dstH && row == start + ph * dstW && row <= start + dstH * dstW
      invariant forall k :: 0 <= k < row ==> dst[k] == p[k]
    {
      MulLe(ph + 1, dstH, dstW);
      assert (c * dstH + ph) * dstW == c * (dstH * dstW) + ph * dstW;
      PoolRowChw(src, srcC, srcH, srcW, kernelY, kernelX, strideY, strideX, padY, padX, dst, dstH, dstW, c, ph, row, p);
      assert (ph + 1) * dstW == ph * dstW + dstW;
      ph, row := ph + 1, row + dstW;
    }
  }

  /** The channel-major loops against an output `p` known row by row. */
  method PoolSweepChw(src: seq<real>, srcC: nat, srcH: nat, srcW: nat, kernelY: nat, kernelX: nat, strideY: nat, strideX: nat,
                      padY: nat, padX: nat, dst: array<real>, dstH: nat, dstW: nat, ghost p: seq<real>)
    requires |src| == srcC * srcH * srcW && dst.Length == |p| == srcC * (dstH * dstW)
    requires forall c, ph :: 0 <= c < srcC && 0 <= ph < dstH ==>
      PoolChwRowAt(p, src, srcC, srcH, srcW, kernelY, kernelX, strideY, strideX, padY, padX, dstH, dstW, c, ph)
    modifies dst
    ensures dst[..] == p
  {
    var plane := dstH * dstW;
    var c, start := 0, 0;
    while c < srcC
      invariant c <= srcC && start == c * plane
      invariant forall k :: 0 <= k < start ==> dst[k] == p[k]
    {
      MulLe(c + 1, srcC, plane);
      PoolChannelChw(src, srcC, srcH, srcW, kernelY, kernelX, strideY, strideX, padY, padX, dst, dstH, dstW, c, start, p);
      assert (c + 1) * plane == c * plane + plane;
      c, start := c + 1, start + plane;
    }
    assert start == srcC * plane == |p|;
    assert dst[..] == p;
  }

  /** The channel-major branch: channel by channel, row by row. */
  method PoolingMaxChw(src: seq<real>, srcC: nat, srcH: nat, srcW: nat, kernelY: nat, kernelX: nat, strideY: nat, strideX: nat,
                       padY: nat, padX: nat, dst: array<real>, dstH: nat, dstW: nat)
    requires |src| == srcC * srcH * srcW && dst.Length == srcC * dstH * dstW
    modifies dst
    ensures dst[..] == PoolChw(src, srcC, srcH, srcW, kernelY, kernelX, strideY, strideX, padY, padX, dstH, dstW)
  {
    ghost var p := PoolChw(src, srcC, srcH, srcW, kernelY, kernelX, strideY, strideX, padY, padX, dstH, dstW);
    assert srcC * dstH * dstW == srcC * (dstH * dstW);
    forall c, ph | 0 <= c < srcC && 0 <= ph < dstH
      ensures PoolChwRowAt(p, src, srcC, srcH, srcW, kernelY, kernelX, strideY, strideX, padY, padX, dstH, dstW, c, ph)
    {
      PoolChwRows(src, srcC, srcH, srcW, kernelY, kernelX, strideY, strideX, padY, padX, dstH, dstW, c, ph);
    }
    PoolSweepChw(src, srcC, srcH, srcW, kernelY, kernelX, strideY, strideX, padY, padX, dst, dstH, dstW, p);
  }

  // ---------------------------------------------------------------------
  // Channel-last: a row of `srcC` accumulators per output position.

  /** `dst[at + t] = max(dst[at + t], src[from + t])` for `t < n`. */
  method MaxIntoRow(src: seq<real>, from: nat, dst: array<real>, at: nat, n: nat)
    requires from + n <= |src| && at + n <= dst.Length
    modifies dst
    ensures forall k :: 0 <= k < dst.Length ==>
      dst[k] == if at <= k < at + n then Max(old(dst[k]), src[from + (k - at)]) else old(dst[k])
  {
    var t := 0;
    while t < n
      invariant t <= n
      invariant forall k :: 0 <= k < dst.Length ==>
        dst[k] == if at <= k < at + t then Max(old(dst[k]), src[from + (k - at)]) else old(dst[k])
    {
      dst[at + t] := Max(dst[at + t], src[from + t]);
      t := t + 1;
    }
  }

  /** The `n` accumulators at `at` each hold channel `c`'s fold of rows
      `h0 .. h-1` of the window. */
  ghost predicate RowsFolded(d: seq<real>, at: nat, n: nat, img: Image, h0: nat, h: nat, w0: nat, w1: nat)
  {
    at + n <= |d| &&
    forall c :: 0 <= c < n ==> d[at + c] == FoldRows(img, c, Bottom, h0, h, w0, w1)
  }

  /** ... and further of columns `w0 .. w-1` of row `h`. */
  ghost predicate ColsFolded(d: seq<real>, at: nat, n: nat, img: Image, h0: nat, h: nat, w0: nat, w: nat, w1: nat)
  {
    at + n <= |d| &&
    forall c :: 0 <= c < n ==> d[at + c] == FoldCols(img, c, h, FoldRows(img, c, Bottom, h0, h, w0, w1), w0, w)
  }

  /** One source row of the window folded into the `srcC` accumulators. */
  method PoolRowHwcFold(src: seq<real>, srcC: nat, srcH: nat, srcW: nat, h0: nat, h: nat, w0: nat, w1: nat,
                        dst: array<real>, at: nat)
    requires |src| == srcC * srcH * srcW && h0 <= h < srcH && (w0 < w1 ==> w1 <= srcW)
    requires RowsFolded(dst[..], at, srcC, HwcImage(src, srcC, srcW), h0, h, w0, w1)
    modifies dst
    ensures RowsFolded(dst[..], at, srcC, HwcImage(src, srcC, srcW), h0, h + 1, w0, w1)
    ensures forall k :: 0 <= k < dst.Length && !(at <= k < at + srcC) ==> dst[k] == old(dst[k])
  {
    var w := w0;
    while w < w1
      invariant w0 <= w && (w == w0 || w <= w1)
      invariant ColsFolded(dst[..], at, srcC, HwcImage(src, srcC, srcW), h0, h, w0, w, w1)
      invariant forall k :: 0 <= k < dst.Length && !(at <= k < at + srcC) ==> dst[k] == old(dst[k])
    {
      var from := (h * srcW + w) * srcC;
      if srcC > 0 {
        HwcInside(srcC - 1, h, w, srcC, srcH, srcW);
      }
      ghost var d0 := dst[..];
      MaxIntoRow(src, from, dst, at, srcC);
      forall c | 0 <= c < srcC
        ensures dst[at + c] == FoldCols(HwcImage(src, srcC, srcW), c, h, FoldRows(HwcImage(src, srcC, srcW), c, Bottom, h0, h, w0, w1), w0, w + 1)
      {
        assert dst[at + c] == Max(d0[at + c], src[from + c]);
      }
      w := w + 1;
    }
    ghost var next := h + 1;
    forall c | 0 <= c < srcC
      ensures dst[at + c] == FoldRows(HwcImage(src, srcC, srcW), c, Bottom, h0, next, w0, w1)
    {
      assert dst[at + c] == FoldCols(HwcImage(src, srcC, srcW), c, h, FoldRows(HwcImage(src, srcC, srcW), c, Bottom, h0, h, w0, w1), w0, w);
    }
  }

  /** The window `[h0, h1) × [w0, w1)` of every channel, from `-FLT_MAX`, into
      the `srcC` cells at `at`; nothing else changes. */
  method PoolPositionHwc(src: seq<real>, srcC: nat, srcH: nat, srcW: nat, h0: nat, h1: nat, w0: nat, w1: nat,
                         dst: array<real>, at: nat)
    requires |src| == srcC * srcH * srcW && at + srcC <= dst.Length
    requires (h0 < h1 ==> h1 <= srcH) && (w0 < w1 ==> w1 <= srcW)
    modifies dst
    ensures forall c :: 0 <= c < srcC ==> dst[at + c] == FoldRows(HwcImage(src, srcC, srcW), c, Bottom, h0, h1, w0, w1)
    ensures forall k :: 0 <= k < dst.Length && !(at <= k < at + srcC) ==> dst[k] == old(dst[k])
  {
    var c := 0;
    while c < srcC
      invariant c <= srcC
      invariant forall k :: 0 <= k < dst.Length ==> dst[k] == if at <= k < at + c then Bottom else old(dst[k])
    {
      dst[at + c] := Bottom;
      c := c + 1;
    }
    var h := h0;
    while h < h1
      invariant h0 <= h && (h == h0 || h <= h1)
      invariant RowsFolded(dst[..], at, srcC, HwcImage(src, srcC, srcW), h0, h, w0, w1)
      invariant forall k :: 0 <= k < dst.Length && !(at <= k < at + srcC) ==> dst[k] == old(dst[k])
    {
      PoolRowHwcFold(src, srcC, srcH, srcW, h0, h, w0, w1, dst, at);
      h := h + 1;
    }
    forall c | 0 <= c < srcC
      ensures dst[at + c] == FoldRows(HwcImage(src, srcC, srcW), c, Bottom, h0, h1, w0, w1)
    {
      assert dst[at + c] == FoldRows(HwcImage(src, srcC, srcW), c, Bottom, h0, h, w0, w1);
    }
  }

  /** Position `(ph, pw)` of `p` holds, channel by channel, the pooled values
      of channel-last storage. */
  ghost predicate PoolHwcPositionAt(p: seq<real>, src: seq<real>, srcC: nat, srcH: nat, srcW: nat, kernelY: nat, kernelX: nat,
                                    strideY: nat, strideX: nat, padY: nat, padX: nat, dstW: nat, ph: nat, pw: nat)
  {
    (ph * dstW + pw) * srcC + srcC <= |p| &&
    forall c :: 0 <= c < srcC ==>
      At(p, (ph * dstW + pw) * srcC + c) == PoolAt(HwcImage(src, srcC, srcW), c, ph, pw, kernelY, kernelX, strideY, strideX, padY, padX, srcH, srcW)
  }

  /** `PoolHwc` position by position. */
  lemma PoolHwcPositions(src: seq<real>, srcC: nat, srcH: nat, srcW: nat, kernelY: nat, kernelX: nat, strideY: nat, strideX: nat,
                         padY: nat, padX: nat, dstH: nat, dstW: nat, ph: nat, pw: nat)
    requires ph < dstH && pw < dstW
    ensures PoolHwcPositionAt(PoolHwc(src, srcC, srcH, srcW, kernelY, kernelX, strideY, strideX, padY, padX, dstH, dstW),
                              src, srcC, srcH, srcW, kernelY, kernelX, strideY, strideX, padY, padX, dstW, ph, pw)
  {
    var p := PoolHwc(src, srcC, srcH, srcW, kernelY, kernelX, strideY, strideX, padY, padX, dstH, dstW);
    assert |p| == dstH * dstW * srcC;
    if srcC > 0 {
      PoolHwcAt(src, srcC, srcH, srcW, kernelY, kernelX, strideY, strideX, padY, padX, dstH, dstW, srcC - 1, ph, pw);
    }
    forall c | 0 <= c < srcC
      ensures At(p, (ph * dstW + pw) * srcC + c) == PoolAt(HwcImage(src, srcC, srcW), c, ph, pw, kernelY, kernelX, strideY, strideX, padY, padX, srcH, srcW)
    {
      PoolHwcAt(src, srcC, srcH, srcW, kernelY, kernelX, strideY, strideX, padY, padX, dstH, dstW, c, ph, pw);
    }
  }

  /** Output position `(ph, pw)`, channel-last, after the positions before it. */
  method PoolStepHwc(src: seq<real>, srcC: nat, srcH: nat, srcW: nat, kernelY: nat, kernelX: nat, strideY: nat, strideX: nat,
                     padY: nat, padX: nat, dst: array<real>, dstW: nat, ph: nat, pw: nat, at: nat, ghost p: seq<real>)
    requires |src| == srcC * srcH * srcW && at == (ph * dstW + pw) * srcC && dst.Length == |p|
    requires PoolHwcPositionAt(p, src, srcC, srcH, srcW, kernelY, kernelX, strideY, strideX, padY, padX, dstW, ph, pw)
    requires forall k :: 0 <= k < at ==> dst[k] == p[k]
    modifies dst
    ensures forall k :: 0 <= k < at + srcC ==> dst[k] == p[k]
  {
    PoolPositionHwc(src, srcC, srcH, srcW, WindowStart(ph, strideY, padY), WindowEnd(ph, strideY, padY, kernelY, srcH),
                    WindowStart(pw, strideX, padX), WindowEnd(pw, strideX, padX, kernelX, srcW), dst, at);
    forall k | at <= k < at + srcC
      ensures dst[k] == p[k]
    {
      var c := k - at;
      assert At(p, at + c) == PoolAt(HwcImage(src, srcC, srcW), c, ph, pw, kernelY, kernelX, strideY, strideX, padY, padX, srcH, srcW);
    }
  }

  /** The positions of output row `ph`, channel-last, after the rows before it. */
  method PoolRowHwc(src: seq<real>, srcC: nat, srcH: nat, srcW: nat, kernelY: nat, kernelX: nat, strideY: nat, strideX: nat,
                    padY: nat, padX: nat, dst: array<real>, dstW: nat, ph: nat, start: nat, ghost p: seq<real>)
    requires |src| == srcC * srcH * srcW && start == ph * (dstW * srcC)
    requires dst.Length == |p| && start + dstW * srcC <= |p|
    requires forall pw :: 0 <= pw < dstW ==>
      PoolHwcPositionAt(p, src, srcC, srcH, srcW, kernelY, kernelX, strideY, strideX, padY, padX, dstW, ph, pw)
    requires forall k :: 0 <= k < start ==> dst[k] == p[k]
    modifies dst
    ensures forall k :: 0 <= k < start + dstW * srcC ==> dst[k] == p[k]
  {
    var pw, at := 0, start;
    while pw < dstW
      invariant pw <= dstW && at == start + pw * srcC && at <= start + dstW * srcC
      invariant forall k :: 0 <= k < at ==> dst[k] == p[k]
    {
      MulLe(pw + 1, dstW, srcC);
      assert (ph * dstW + pw) * srcC == ph * (dstW * srcC) + pw * srcC;
      PoolStepHwc(src, srcC, srcH, srcW, kernelY, kernelX, strideY, strideX, padY, padX, dst, dstW, ph, pw, at, p);
      assert (pw + 1) * srcC == pw * srcC + srcC;
      pw, at := pw + 1, at + srcC;
    }
  }

  /** The channel-last loops against an output `p` known position by
      position. */
  method PoolSweepHwc(src: seq<real>, srcC: nat, srcH: nat, srcW: nat, kernelY: nat, kernelX: nat, strideY: nat, strideX: nat,
                      padY: nat, padX: nat, dst: array<real>, dstH: nat, dstW: nat, ghost p: seq<real>)
    requires |src| == srcC * srcH * srcW && dst.Length == |p| == dstH * (dstW * srcC)
    requires forall ph, pw :: 0 <= ph < dstH && 0 <= pw < dstW ==>
      PoolHwcPositionAt(p, src, srcC, srcH, srcW, kernelY, kernelX, strideY, strideX, padY, padX, dstW, ph, pw)
    modifies dst
    ensures dst[..] == p
  {
    var line := dstW * srcC;
    var ph, start := 0, 0;
    while ph < dstH
      invariant ph <= dstH && start == ph * line
      invariant forall k :: 0 <= k < start ==> dst[k] == p[k]
    {
      MulLe(ph + 1, dstH, line);
      PoolRowHwc(src, srcC, srcH, srcW, kernelY, kernelX, strideY, strideX, padY, padX, dst, dstW, ph, start, p);
      assert (ph + 1) * line == ph * line + line;
      ph, start := ph + 1, start + line;
    }
    assert start == dstH * line == |p|;
    assert dst[..] == p;
  }

  /** The channel-last branch: position by position. */
  method PoolingMaxHwc(src: seq<real>, srcC: nat, srcH: nat, srcW: nat, kernelY: nat, kernelX: nat, strideY: nat, strideX: nat,
                       padY: nat, padX: nat, dst: array<real>, dstH: nat, dstW: nat)
    requires |src| == srcC * srcH * srcW && dst.Length == srcC * dstH * dstW
    modifies dst
    ensures dst[..] == PoolHwc(src, srcC, srcH, srcW, kernelY, kernelX, strideY, strideX, padY, padX, dstH, dstW)
  {
    ghost var p := PoolHwc(src, srcC, srcH, srcW, kernelY, kernelX, strideY, strideX, padY, padX, dstH, dstW);
    assert srcC * dstH * dstW == dstH * (dstW * srcC);
    forall ph, pw | 0 <= ph < dstH && 0 <= pw < dstW
      ensures PoolHwcPositionAt(p, src, srcC, srcH, srcW, kernelY, kernelX, strideY, strideX, padY, padX, dstW, ph, pw)
    {
      PoolHwcPositions(src, srcC, srcH, srcW, kernelY, kernelX, strideY, strideX, padY, padX, dstH, dstW, ph, pw);
    }
    PoolSweepHwc(src, srcC, srcH, srcW, kernelY, kernelX, strideY, strideX, padY, padX, dst, dstH, dstW, p);
  }

  /** `SynetPoolingForwardMax`: channel-last storage when `trans`, channel-major
      otherwise; every output is the maximum of its clamped window. */
  method PoolingForwardMax(src: seq<real>, srcC: nat, srcH: nat, srcW: nat, kernelY: nat, kernelX: nat, strideY: nat, strideX: nat,
                           padY: nat, padX: nat, dst: array<real>, dstH: nat, dstW: nat, trans: bool)
    requires |src| == srcC * srcH * srcW && dst.Length == srcC * dstH * dstW
    modifies dst
    ensures trans ==> dst[..] == PoolHwc(src, srcC, srcH, srcW, kernelY, kernelX, strideY, strideX, padY, padX, dstH, dstW)
    ensures !trans ==> dst[..] == PoolChw(src, srcC, srcH, srcW, kernelY, kernelX, strideY, strideX, padY, padX, dstH, dstW)
  {
    if trans {
      PoolingMaxHwc(src, srcC, srcH, srcW, kernelY, kernelX, strideY, strideX, padY, padX, dst, dstH, dstW);
    } else {
      PoolingMaxChw(src, srcC, srcH, srcW, kernelY, kernelX, strideY, strideX, padY, padX, dst, dstH, dstW);
    }
  }
}
