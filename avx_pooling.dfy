/** The channel-last branch of the AVX-512 `SynetPoolingForwardMax`: each
    output position sweeps its clamped window with a block of 8, 4, 2 or 1
    registers of channels (`PoolingMaxHwc8/4/2/1`), and one register under
    the tail mask takes the last `srcC % F` channels. The other branch hands
    every layout to code outside the model. */
module AvxPooling {
  import opened Lanes
  import opened Layout
  import opened Formulas
  import opened Reference
  import Base
  import BasePooling
  import AvxInnerProduct

  // ---------------------------------------------------------------------
  // Register blocks.

  /** `_mm512_set1_ps(-FLT_MAX)`. */
  const Low: seq<real> := seq(F, _ => Bottom)

  /** `_mm512_max_ps`. */
  function MaxPs(a: seq<real>, b: seq<real>): (r: seq<real>)
    requires |a| == |b| == F
    ensures |r| == F
  {
    seq(F, l requires 0 <= l < F => Max(a[l], b[l]))
  }

  /** Every register of a block has sixteen lanes. */
  predicate Registers(regs: seq<seq<real>>)
  {
    forall r :: 0 <= r < |regs| ==> |regs[r]| == F
  }

  /** One column of the window: register `r` takes the lane-wise maximum with
      its load from `src[from + r·F ..]` under `mask`. */
  function ColumnMax(regs: seq<seq<real>>, src: seq<real>, from: nat, mask: bv16, n: nat): (next: seq<seq<real>>)
    requires Registers(regs) && 1 <= |regs| && LowLanes(mask, n)
    requires from + (|regs| - 1) * F + n <= |src|
    ensures |next| == |regs| && Registers(next)
  {
    seq(|regs|, r requires 0 <= r < |regs| => MaxPs(regs[r], MaskzLoadU(mask, src, from + r * F)))
  }

  /** Lane `l` of register `r` holds channel `c + r·F + l` folded over rows
      `h0 .. h-1` of the window and columns `w0 .. w-1` of row `h`. */
  ghost predicate Folded(regs: seq<seq<real>>, img: Image, c: nat, n: nat, h0: nat, h: nat, w0: nat, w: nat, w1: nat)
  {
    forall r, l :: 0 <= r < |regs| && 0 <= l < n && l < |regs[r]| ==>
      regs[r][l] == FoldCols(img, c + r * F + l, h, FoldRows(img, c + r * F + l, Bottom, h0, h, w0, w1), w0, w)
  }

  /** ... over whole rows `h0 .. h-1`. */
  ghost predicate RowsFolded(regs: seq<seq<real>>, img: Image, c: nat, n: nat, h0: nat, h: nat, w0: nat, w1: nat)
  {
    forall r, l :: 0 <= r < |regs| && 0 <= l < n && l < |regs[r]| ==>
      regs[r][l] == FoldRows(img, c + r * F + l, Bottom, h0, h, w0, w1)
  }

  /** A block of `-FLT_MAX` registers has folded no row yet. */
  lemma LowFolded(b: nat, img: Image, c: nat, n: nat, h0: nat, w0: nat, w1: nat)
    requires n <= F
    ensures Registers(seq(b, _ => Low))
    ensures RowsFolded(seq(b, _ => Low), img, c, n, h0, h0, w0, w1)
  {
  }

  /** Folding one more column of row `h`: the registers take channel
      `c + r·F + l` of source pixel `(h, w)`. */
  lemma ColumnStep(regs: seq<seq<real>>, src: seq<real>, srcC: nat, srcH: nat, srcW: nat, c: nat, mask: bv16, n: nat,
                   h0: nat, h: nat, w0: nat, w: nat, w1: nat, from: nat)
    requires |src| == srcC * srcH * srcW && h < srcH && w0 <= w < srcW && from == (h * srcW + w) * srcC + c
    requires Registers(regs) && 1 <= |regs| && LowLanes(mask, n) && c + (|regs| - 1) * F + n <= srcC
    requires Folded(regs, HwcImage(src, srcC, srcW), c, n, h0, h, w0, w, w1)
    ensures from + (|regs| - 1) * F + n <= |src|
    ensures Folded(ColumnMax(regs, src, from, mask, n), HwcImage(src, srcC, srcW), c, n, h0, h, w0, w + 1, w1)
  {
    var img := HwcImage(src, srcC, srcW);
    var pixel := (h * srcW + w) * srcC;
    if 0 < srcC {
      BasePooling.HwcInside(srcC - 1, h, w, srcC, srcH, srcW);
    }
    var next := ColumnMax(regs, src, from, mask, n);
    forall r, l | 0 <= r < |regs| && 0 <= l < n && l < |next[r]|
      ensures next[r][l] == FoldCols(img, c + r * F + l, h, FoldRows(img, c + r * F + l, Bottom, h0, h, w0, w1), w0, w + 1)
    {
      var ch := c + r * F + l;
      assert LaneOn(mask, l);
      assert next[r][l] == Max(regs[r][l], src[pixel + ch]);
      assert img(ch, h, w) == src[pixel + ch];
    }
  }

  /** No column of row `h` folded yet. */
  lemma RowStart(regs: seq<seq<real>>, img: Image, c: nat, n: nat, h0: nat, h: nat, w0: nat, w1: nat)
    requires RowsFolded(regs, img, c, n, h0, h, w0, w1)
    ensures Folded(regs, img, c, n, h0, h, w0, w0, w1)
  {
  }

  /** Row `h` fully folded, or skipped with an empty column range, joins the
      folded rows. */
  lemma RowStep(regs: seq<seq<real>>, img: Image, c: nat, n: nat, h0: nat, h: nat, w0: nat, w: nat, w1: nat)
    requires h0 <= h && (w == w1 || (w == w0 && w1 <= w0))
    requires Folded(regs, img, c, n, h0, h, w0, w, w1)
    ensures RowsFolded(regs, img, c, n, h0, h + 1, w0, w1)
  {
    forall r, l | 0 <= r < |regs| && 0 <= l < n && l < |regs[r]|
      ensures regs[r][l] == FoldRows(img, c + r * F + l, Bottom, h0, h + 1, w0, w1)
    {
      RowStepLane(img, c + r * F + l, h0, h, w0, w, w1);
    }
  }

  /** One channel of `RowStep`. */
  lemma RowStepLane(img: Image, ch: nat, h0: nat, h: nat, w0: nat, w: nat, w1: nat)
    requires h0 <= h && (w == w1 || (w == w0 && w1 <= w0))
    ensures FoldCols(img, ch, h, FoldRows(img, ch, Bottom, h0, h, w0, w1), w0, w) == FoldRows(img, ch, Bottom, h0, h + 1, w0, w1)
  {
    var acc := FoldRows(img, ch, Bottom, h0, h, w0, w1);
    if w != w1 {
      assert FoldCols(img, ch, h, acc, w0, w) == acc == FoldCols(img, ch, h, acc, w0, w1);
    }
  }

  // ---------------------------------------------------------------------
  // Output cells.

  /** `d` is `d0` with cells `at .. at+m-1` holding channels `c ..` pooled
      over the window `[h0, h1) × [w0, w1)`. */
  ghost predicate Pooled(d: seq<real>, d0: seq<real>, img: Image, c: nat, at: nat, m: nat, h0: nat, h1: nat, w0: nat, w1: nat)
  {
    |d| == |d0| && at + m <= |d| &&
    forall k :: 0 <= k < |d| ==> d[k] == if at <= k < at + m then FoldRows(img, c + (k - at), Bottom, h0, h1, w0, w1) else d0[k]
  }

  /** Storing register `r` of a folded block after the `r·F` cells of the
      registers before it extends the pooled cells by its `n` lanes. */
  lemma StoreCells(after: seq<real>, before: seq<real>, d0: seq<real>, regs: seq<seq<real>>, img: Image,
                   c: nat, at: nat, r: nat, n: nat, h0: nat, h1: nat, w0: nat, w1: nat)
    requires Registers(regs) && r < |regs| && n <= F && at + r * F + n <= |before|
    requires RowsFolded(regs, img, c, n, h0, h1, w0, w1)
    requires Pooled(before, d0, img, c, at, r * F, h0, h1, w0, w1)
    requires after == before[..at + r * F] + regs[r][..n] + before[at + r * F + n..]
    ensures Pooled(after, d0, img, c, at, r * F + n, h0, h1, w0, w1)
  {
    Splice(after, before, regs[r], at + r * F, n);
    forall k | at + r * F <= k < at + r * F + n
      ensures after[k] == FoldRows(img, c + (k - at), Bottom, h0, h1, w0, w1)
    {
      var l := k - (at + r * F);
      assert after[k] == regs[r][l];
    }
  }

  /** Cells pooled after cells pooled join. */
  lemma PooledJoin(d0: seq<real>, d1: seq<real>, d2: seq<real>, img: Image, at: nat, c: nat, m: nat,
                   h0: nat, h1: nat, w0: nat, w1: nat)
    requires Pooled(d1, d0, img, 0, at, c, h0, h1, w0, w1)
    requires Pooled(d2, d1, img, c, at + c, m, h0, h1, w0, w1)
    ensures Pooled(d2, d0, img, 0, at, c + m, h0, h1, w0, w1)
  {
  }

  // ---------------------------------------------------------------------
  // `PoolingMaxHwc8/4/2/1`.

  /** The loops of `PoolingMaxHwc<b>`: `b` registers of channels `c ..`,
      each loaded under `mask` which holds `n` lanes, start at `-FLT_MAX` and
      take the maximum over the window `[h0, h1) × [w0, w1)` pixel by pixel. */
  method FoldWindow(src: seq<real>, srcC: nat, srcH: nat, srcW: nat, h0: nat, h1: nat, w0: nat, w1: nat,
                    c: nat, b: nat, mask: bv16, n: nat) returns (regs: seq<seq<real>>)
    requires |src| == srcC * srcH * srcW && (h0 < h1 ==> h1 <= srcH) && (w0 < w1 ==> w1 <= srcW)
    requires 1 <= b && LowLanes(mask, n) && c + (b - 1) * F + n <= srcC
    ensures |regs| == b && Registers(regs)
    ensures RowsFolded(regs, HwcImage(src, srcC, srcW), c, n, h0, h1, w0, w1)
  {
    ghost var img := HwcImage(src, srcC, srcW);
    regs := seq(b, _ => Low);
    LowFolded(b, img, c, n, h0, w0, w1);
    var h := h0;
    while h < h1
      invariant h0 <= h && (h == h0 || h <= h1)
      invariant |regs| == b && Registers(regs)
      invariant RowsFolded(regs, img, c, n, h0, h, w0, w1)
    {
      regs := FoldRow(src, srcC, srcH, srcW, h0, h, w0, w1, c, mask, n, regs);
      h := h + 1;
    }
  }

  /** Row `h` of the window, column by column, into a block that holds rows
      `h0 .. h-1`. */
  method FoldRow(src: seq<real>, srcC: nat, srcH: nat, srcW: nat, h0: nat, h: nat, w0: nat, w1: nat,
                 c: nat, mask: bv16, n: nat, regs0: seq<seq<real>>) returns (regs: seq<seq<real>>)
    requires |src| == srcC * srcH * srcW && h0 <= h < srcH && (w0 < w1 ==> w1 <= srcW)
    requires 1 <= |regs0| && Registers(regs0) && LowLanes(mask, n) && c + (|regs0| - 1) * F + n <= srcC
    requires RowsFolded(regs0, HwcImage(src, srcC, srcW), c, n, h0, h, w0, w1)
    ensures |regs| == |regs0| && Registers(regs)
    ensures RowsFolded(regs, HwcImage(src, srcC, srcW), c, n, h0, h + 1, w0, w1)
  {
    ghost var img := HwcImage(src, srcC, srcW);
    regs := regs0;
    RowStart(regs, img, c, n, h0, h, w0, w1);
    var w := w0;
    while w < w1
      invariant w0 <= w && (w == w0 || w <= w1)
      invariant |regs| == |regs0| && Registers(regs)
      invariant Folded(regs, img, c, n, h0, h, w0, w, w1)
    {
      regs := FoldColumn(src, srcC, srcH, srcW, h0, h, w0, w, w1, c, mask, n, regs);
      w := w + 1;
    }
    RowStep(regs, img, c, n, h0, h, w0, w, w1);
  }

  /** Pixel `(h, w)` of the window into a block that holds its columns
      `w0 .. w-1`. */
  method FoldColumn(src: seq<real>, srcC: nat, srcH: nat, srcW: nat, h0: nat, h: nat, w0: nat, w: nat, w1: nat,
                    c: nat, mask: bv16, n: nat, regs0: seq<seq<real>>) returns (regs: seq<seq<real>>)
    requires |src| == srcC * srcH * srcW && h < srcH && w0 <= w < srcW
    requires 1 <= |regs0| && Registers(regs0) && LowLanes(mask, n) && c + (|regs0| - 1) * F + n <= srcC
    requires Folded(regs0, HwcImage(src, srcC, srcW), c, n, h0, h, w0, w, w1)
    ensures |regs| == |regs0| && Registers(regs)
    ensures Folded(regs, HwcImage(src, srcC, srcW), c, n, h0, h, w0, w + 1, w1)
  {
    var from := (h * srcW + w) * srcC + c;
    ColumnStep(regs0, src, srcC, srcH, srcW, c, mask, n, h0, h, w0, w, w1, from);
    regs := ColumnMax(regs0, src, from, mask, n);
  }

  /** `PoolingMaxHwc<b>` over the window `[h0, h1) × [w0, w1)`: `b` registers
      of channels `c ..` (each loaded under `mask`, which holds `n` lanes, all
      sixteen unless `b == 1`) start at `-FLT_MAX`, take the maximum over the
      window pixel by pixel and are stored at `at`. */
  method PoolBlock(src: seq<real>, srcC: nat, srcH: nat, srcW: nat, h0: nat, h1: nat, w0: nat, w1: nat,
                   c: nat, b: nat, mask: bv16, n: nat, dst: array<real>, at: nat)
    requires |src| == srcC * srcH * srcW && (h0 < h1 ==> h1 <= srcH) && (w0 < w1 ==> w1 <= srcW)
    requires 1 <= b && LowLanes(mask, n) && (b == 1 || n == F)
    requires c + (b - 1) * F + n <= srcC && at + (b - 1) * F + n <= dst.Length
    modifies dst
    ensures Pooled(dst[..], old(dst[..]), HwcImage(src, srcC, srcW), c, at, (b - 1) * F + n, h0, h1, w0, w1)
  {
    ghost var img := HwcImage(src, srcC, srcW);
    var regs := FoldWindow(src, srcC, srcH, srcW, h0, h1, w0, w1, c, b, mask, n);
    ghost var d0 := dst[..];
    var r := 0;
    while r < b
      invariant r <= b
      invariant Pooled(dst[..], d0, img, c, at, if r == 0 then 0 else (r - 1) * F + n, h0, h1, w0, w1)
    {
      assert (if r == 0 then 0 else (r - 1) * F + n) == r * F;
      ghost var before := dst[..];
      StoreMasked(dst, at + r * F, regs[r], mask, n);
      StoreCells(dst[..], before, d0, regs, img, c, at, r, n, h0, h1, w0, w1);
      r := r + 1;
    }
  }

  /** A block after the channels already pooled at this position. */
  method Batch(src: seq<real>, srcC: nat, srcH: nat, srcW: nat, h0: nat, h1: nat, w0: nat, w1: nat,
               c: nat, b: nat, mask: bv16, n: nat, dst: array<real>, at: nat, ghost d0: seq<real>)
    requires |src| == srcC * srcH * srcW && (h0 < h1 ==> h1 <= srcH) && (w0 < w1 ==> w1 <= srcW)
    requires 1 <= b && LowLanes(mask, n) && (b == 1 || n == F)
    requires c + (b - 1) * F + n <= srcC && at + srcC <= dst.Length
    requires Pooled(dst[..], d0, HwcImage(src, srcC, srcW), 0, at, c, h0, h1, w0, w1)
    modifies dst
    ensures Pooled(dst[..], d0, HwcImage(src, srcC, srcW), 0, at, c + (b - 1) * F + n, h0, h1, w0, w1)
  {
    ghost var d1 := dst[..];
    PoolBlock(src, srcC, srcH, srcW, h0, h1, w0, w1, c, b, mask, n, dst, at + c);
    PooledJoin(d0, d1, dst[..], HwcImage(src, srcC, srcW), at, c, (b - 1) * F + n, h0, h1, w0, w1);
  }

  // ---------------------------------------------------------------------
  // The channel batches of one output position.

  /** A multiple of `k·a` is a multiple of `a`, and the largest one below `n`
      is at most the largest multiple of `a` below `n`. */
  lemma AlignLoNested(n: nat, a: nat, k: nat)
    requires a > 0 && k > 0
    ensures AlignLo(n, k * a) % a == 0 && AlignLo(n, k * a) <= AlignLo(n, a)
  {
    var m := AlignLo(n, k * a);
    var q := m / (k * a);
    assert m == q * (k * a);
    assert m == (q * k) * a;
    MultipleMod(q * k, a);
    var p, s := m / a, n / a;
    assert m == p * a;
    assert AlignLo(n, a) == s * a;
    if p > s {
      MulLe(s + 1, p, a);
    }
    MulLe(p, s, a);
  }

  /** The four loop bounds of a position: `srcCF8 ≤ srcCF4 ≤ srcCF2 ≤ srcCF1
      ≤ srcC`, each a multiple of the next step, and less than `F` channels
      left for the masked step. */
  lemma Breakpoints(srcC: nat)
    ensures AlignLo(srcC, 8 * F) <= AlignLo(srcC, 4 * F) <= AlignLo(srcC, 2 * F) <= AlignLo(srcC, F) <= srcC
    ensures AlignLo(srcC, 8 * F) % (4 * F) == 0 && AlignLo(srcC, 4 * F) % (2 * F) == 0 && AlignLo(srcC, 2 * F) % F == 0
    ensures srcC - AlignLo(srcC, F) < F
  {
    assert 8 * F == 2 * (4 * F) && 4 * F == 2 * (2 * F) && 2 * F == 2 * F;
    AlignLoNested(srcC, 4 * F, 2);
    AlignLoNested(srcC, 2 * F, 2);
    AlignLoNested(srcC, F, 2);
  }

  /** The loads of one position, in the order the five loops issue them. */
  function PoolBatches(srcC: nat): seq<AvxInnerProduct.Span>
  {
    var c8, c4, c2, c1 := AlignLo(srcC, 8 * F), AlignLo(srcC, 4 * F), AlignLo(srcC, 2 * F), AlignLo(srcC, F);
    var e8 := AvxInnerProduct.StepExit(0, c8, 8 * F);
    var e4 := AvxInnerProduct.StepExit(e8, c4, 4 * F);
    var e2 := AvxInnerProduct.StepExit(e4, c2, 2 * F);
    var e1 := AvxInnerProduct.StepExit(e2, c1, F);
    AvxInnerProduct.StepLoads(0, c8, 8 * F) + AvxInnerProduct.StepLoads(e8, c4, 4 * F)
      + AvxInnerProduct.StepLoads(e4, c2, 2 * F) + AvxInnerProduct.StepLoads(e2, c1, F)
      + AvxInnerProduct.TailLoad(srcC, e1)
  }

  /** The batches of 8F, 4F, 2F and F channels and the masked tail cover
      `[0, srcC)` exactly once, in order. */
  lemma PoolBatchesTile(srcC: nat)
    ensures AvxInnerProduct.Tiles(PoolBatches(srcC), 0, srcC)
    ensures AvxInnerProduct.WithinRow(PoolBatches(srcC), srcC)
  {
    var c8, c4, c2, c1 := AlignLo(srcC, 8 * F), AlignLo(srcC, 4 * F), AlignLo(srcC, 2 * F), AlignLo(srcC, F);
    Breakpoints(srcC);
    AvxInnerProduct.StepLoadsTile(0, c8, 8 * F);
    AvxInnerProduct.StepLoadsTile(c8, c4, 4 * F);
    AvxInnerProduct.StepLoadsTile(c4, c2, 2 * F);
    AvxInnerProduct.StepLoadsTile(c2, c1, F);
    var s8, s4 := AvxInnerProduct.StepLoads(0, c8, 8 * F), AvxInnerProduct.StepLoads(c8, c4, 4 * F);
    var s2, s1 := AvxInnerProduct.StepLoads(c4, c2, 2 * F), AvxInnerProduct.StepLoads(c2, c1, F);
    var tail := AvxInnerProduct.TailLoad(srcC, c1);
    assert AvxInnerProduct.Tiles(tail, c1, srcC) by {
      if c1 < srcC {
        assert tail[1..] == [];
      }
    }
    AvxInnerProduct.TilesAppend(s8, s4, 0, c8, c4);
    AvxInnerProduct.TilesAppend(s8 + s4, s2, 0, c4, c2);
    AvxInnerProduct.TilesAppend(s8 + s4 + s2, s1, 0, c2, c1);
    AvxInnerProduct.TilesAppend(s8 + s4 + s2 + s1, tail, 0, c1, srcC);
    assert PoolBatches(srcC) == s8 + s4 + s2 + s1 + tail;
    AvxInnerProduct.TilesInside(PoolBatches(srcC), 0, srcC);
  }

  /** The channel loops of one output position with window
      `[h0, h1) × [w0, w1)`: every channel cell at `at` gets its pooled value
      and nothing else changes. */
  method PoolPosition(src: seq<real>, srcC: nat, srcH: nat, srcW: nat, h0: nat, h1: nat, w0: nat, w1: nat,
                      dst: array<real>, at: nat)
    requires |src| == srcC * srcH * srcW && (h0 < h1 ==> h1 <= srcH) && (w0 < w1 ==> w1 <= srcW)
    requires at + srcC <= dst.Length
    modifies dst
    ensures Pooled(dst[..], old(dst[..]), HwcImage(src, srcC, srcW), 0, at, srcC, h0, h1, w0, w1)
  {
    ghost var d0 := dst[..];
    var srcCF1, srcCF2, srcCF4, srcCF8 := AlignLo(srcC, F), AlignLo(srcC, 2 * F), AlignLo(srcC, 4 * F), AlignLo(srcC, 8 * F);
    Breakpoints(srcC);
    var tail := TailMask16(srcC - srcCF1);
    TailMaskLow(srcC - srcCF1);
    var c := Batches(src, srcC, srcH, srcW, h0, h1, w0, w1, 0, srcCF8, 8, dst, at, d0);
    c := Batches(src, srcC, srcH, srcW, h0, h1, w0, w1, c, srcCF4, 4, dst, at, d0);
    c := Batches(src, srcC, srcH, srcW, h0, h1, w0, w1, c, srcCF2, 2, dst, at, d0);
    c := Batches(src, srcC, srcH, srcW, h0, h1, w0, w1, c, srcCF1, 1, dst, at, d0);
    if c < srcC {
      Batch(src, srcC, srcH, srcW, h0, h1, w0, w1, c, 1, tail, srcC - c, dst, at, d0);
    }
  }

  /** `for (; c < bound; c += b·F) PoolingMaxHwc<b>(...)`, from a multiple
      of `b·F` up to the next bound. */
  method Batches(src: seq<real>, srcC: nat, srcH: nat, srcW: nat, h0: nat, h1: nat, w0: nat, w1: nat,
                 c0: nat, bound: nat, b: nat, dst: array<real>, at: nat, ghost d0: seq<real>) returns (c: nat)
    requires |src| == srcC * srcH * srcW && (h0 < h1 ==> h1 <= srcH) && (w0 < w1 ==> w1 <= srcW)
    requires 1 <= b && c0 <= bound <= srcC && c0 % (b * F) == 0 && bound % (b * F) == 0 && at + srcC <= dst.Length
    requires Pooled(dst[..], d0, HwcImage(src, srcC, srcW), 0, at, c0, h0, h1, w0, w1)
    modifies dst
    ensures c == bound
    ensures Pooled(dst[..], d0, HwcImage(src, srcC, srcW), 0, at, bound, h0, h1, w0, w1)
  {
    FullMaskLow();
    c := c0;
    while c < bound
      invariant c0 <= c <= bound && c % (b * F) == 0
      invariant Pooled(dst[..], d0, HwcImage(src, srcC, srcW), 0, at, c, h0, h1, w0, w1)
    {
      Base.AlignedStep(c, bound, b * F);
      assert (b - 1) * F + F == b * F;
      Batch(src, srcC, srcH, srcW, h0, h1, w0, w1, c, b, FullMask, F, dst, at, d0);
      c := c + b * F;
    }
  }

  // ---------------------------------------------------------------------
  // The position loops.

  /** Output position `(ph, pw)` after the positions before it. */
  method PoolStep(src: seq<real>, srcC: nat, srcH: nat, srcW: nat, kernelY: nat, kernelX: nat, strideY: nat, strideX: nat,
                  padY: nat, padX: nat, dst: array<real>, dstW: nat, ph: nat, pw: nat, at: nat, ghost p: seq<real>)
    requires |src| == srcC * srcH * srcW && at == (ph * dstW + pw) * srcC && dst.Length == |p|
    requires BasePooling.PoolHwcPositionAt(p, src, srcC, srcH, srcW, kernelY, kernelX, strideY, strideX, padY, padX, dstW, ph, pw)
    requires forall k :: 0 <= k < at ==> dst[k] == p[k]
    modifies dst
    ensures forall k :: 0 <= k < at + srcC ==> dst[k] == p[k]
  {
    var hStart, hEnd := WindowStart(ph, strideY, padY), WindowEnd(ph, strideY, padY, kernelY, srcH);
    var wStart, wEnd := WindowStart(pw, strideX, padX), WindowEnd(pw, strideX, padX, kernelX, srcW);
    ghost var d0 := dst[..];
    PoolPosition(src, srcC, srcH, srcW, hStart, hEnd, wStart, wEnd, dst, at);
    forall k | 0 <= k < at + srcC
      ensures dst[k] == p[k]
    {
      if k < at {
        assert dst[k] == d0[k];
      } else {
        var c := k - at;
        assert At(p, at + c) == PoolAt(HwcImage(src, srcC, srcW), c, ph, pw, kernelY, kernelX, strideY, strideX, padY, padX, srcH, srcW);
      }
    }
  }

  /** The positions of output row `ph` after the rows before it. */
  method PoolRow(src: seq<real>, srcC: nat, srcH: nat, srcW: nat, kernelY: nat, kernelX: nat, strideY: nat, strideX: nat,
                 padY: nat, padX: nat, dst: array<real>, dstW: nat, ph: nat, start: nat, ghost p: seq<real>)
    requires |src| == srcC * srcH * srcW && start == ph * (dstW * srcC)
    requires dst.Length == |p| && start + dstW * srcC <= |p|
    requires forall pw :: 0 <= pw < dstW ==>
      BasePooling.PoolHwcPositionAt(p, src, srcC, srcH, srcW, kernelY, kernelX, strideY, strideX, padY, padX, dstW, ph, pw)
    requires forall k :: 0 <= k < start ==> dst[k] == p[k]
    modifies dst
    ensures forall k :: 0 <= k < start + dstW * srcC ==> dst[k] == p[k]
  {
    var pw, at := 0, start;
    while pw < dstW
      invariant pw <= dstW && at == start + pw * srcC && at <= start + dstW * srcC
      invariant forall k :: 0 <= k < at ==> dst[k] == p[k]
    {
      assert (ph * dstW + pw) * srcC == ph * (dstW * srcC) + pw * srcC;
      PoolStep(src, srcC, srcH, srcW, kernelY, kernelX, strideY, strideX, padY, padX, dst, dstW, ph, pw, at, p);
      assert (pw + 1) * srcC == pw * srcC + srcC;
      MulLe(pw + 1, dstW, srcC);
      pw, at := pw + 1, at + srcC;
    }
  }

  /** The rows of the output one after the other, against an output `p`
      known position by position. */
  method PoolRows(src: seq<real>, srcC: nat, srcH: nat, srcW: nat, kernelY: nat, kernelX: nat, strideY: nat, strideX: nat,
                  padY: nat, padX: nat, dst: array<real>, dstH: nat, dstW: nat, ghost p: seq<real>)
    requires |src| == srcC * srcH * srcW && dst.Length == |p| == dstH * (dstW * srcC)
    requires forall ph, pw :: 0 <= ph < dstH && 0 <= pw < dstW ==>
      BasePooling.PoolHwcPositionAt(p, src, srcC, srcH, srcW, kernelY, kernelX, strideY, strideX, padY, padX, dstW, ph, pw)
    modifies dst
    ensures dst[..] == p
  {
    var line := dstW * srcC;
    var ph, start := 0, 0;
    while ph < dstH
      invariant ph <= dstH && start == ph * line
      invariant forall k :: 0 <= k < start ==> dst[k] == p[k]
    {
      MulLe(ph + 1, dstH, line);
      PoolRow(src, srcC, srcH, srcW, kernelY, kernelX, strideY, strideX, padY, padX, dst, dstW, ph, start, p);
      assert (ph + 1) * line == ph * line + line;
      ph, start := ph + 1, start + line;
    }
    assert start == dstH * line == |p|;
    assert dst[..] == p;
  }

  /** `SynetPoolingForwardMax`: with `trans` the channel-last loops compute
      the reference pooling; otherwise the three `NeuralPooling` shapes and
      every other shape are handed to code outside the model and `dst` is
      left to it. */
  method SynetPoolingForwardMax(src: seq<real>, srcC: nat, srcH: nat, srcW: nat, kernelY: nat, kernelX: nat,
                                strideY: nat, strideX: nat, padY: nat, padX: nat, dst: array<real>, dstH: nat, dstW: nat,
                                trans: bool)
      returns (computed: bool)
    requires |src| == srcC * srcH * srcW && dst.Length == srcC * dstH * dstW
    modifies dst
    ensures computed == trans
    ensures computed ==> dst[..] == PoolHwc(src, srcC, srcH, srcW, kernelY, kernelX, strideY, strideX, padY, padX, dstH, dstW)
    ensures !computed ==> dst[..] == old(dst[..])
  {
    if !trans {
      return false;
    }
    ghost var p := PoolHwc(src, srcC, srcH, srcW, kernelY, kernelX, strideY, strideX, padY, padX, dstH, dstW);
    forall ph, pw | 0 <= ph < dstH && 0 <= pw < dstW
      ensures BasePooling.PoolHwcPositionAt(p, src, srcC, srcH, srcW, kernelY, kernelX, strideY, strideX, padY, padX, dstW, ph, pw)
    {
      BasePooling.PoolHwcPositions(src, srcC, srcH, srcW, kernelY, kernelX, strideY, strideX, padY, padX, dstH, dstW, ph, pw);
    }
    assert srcC * dstH * dstW == dstH * (dstW * srcC);
    PoolRows(src, srcC, srcH, srcW, kernelY, kernelX, strideY, strideX, padY, padX, dst, dstH, dstW, p);
    return true;
  }
}
