# Synet kernels of the Simd library, in Dafny

This project models the Synet layer kernels of the Simd image-processing
library. These are the building blocks of its neural-network inference
engine. Two implementations are modelled:

- the portable scalar reference (`SimdBaseSynet.cpp`), and
- the AVX-512 implementation (`SimdAvx512fSynet.cpp`), which sweeps the
  same tensors sixteen lanes at a time.

The layers covered are bias addition, scale, the fused layers (variants 0, 1,
2, 3, 4, 8 and 9), PReLU, range restriction, eltwise (product, max, min and
weighted sum), the inner product, cross-channel local response normalization
(LRN) and max pooling.

How the model is built:

- **Values.** A tensor element is a `real`. A tensor is a `seq<real>` for an
  input and an `array<real>` for the output a kernel writes.
- **Reference specification.** Module `Reference` holds one pure function per
  layer: what every output cell must hold, whatever the storage order. This is
  built on the per-element formulas of module `Formulas` and the storage orders
  of module `Layout`: channel-major NCHW, channel-last NHWC, and packed
  NCHW4c/8c/16c.
- **Scalar kernels** (`Base`, `BasePooling`) are methods with the loops of the
  source, including their 4-way unrolling. Each is proved to write exactly the
  reference output.
- **Registers.** Module `Lanes` models an AVX-512 register as a sequence of
  F = 16 lanes and a `__mmask16` as a `bv16`. It also has the loads and
  stores: unaligned, zero-masked and masked.
- **AVX-512 kernels** (`AvxRows`, `AvxChannel`, `AvxEltwise`, `AvxFused`,
  `AvxInnerProduct`, `AvxLrn`, `AvxPooling`) are methods with the sweeps of
  the source:
  - a QF = 64 step, an F step and a masked tail step;
  - the register-level formulas, which the scalar kernels reuse by assumption (see "## Left out").

  Each is proved to write the same reference output.
- **Result.** For every layer the scalar and vector kernels compute the same
  tensor: each ends in `dst[..] == <reference function>`.
- **Properties.** Lemmas prove properties of the reference functions: the
  layer formulas, window recurrences, the equivalence of storage orders,
  maximality, dot-product splitting and mask lane sets.

The x86 intrinsics are modelled on exact arithmetic. `_mm512_fmadd_ps` is
`a·b + c`, `max`/`min` are exact, and the horizontal sum `ExtractSum` is the
sum of the sixteen lanes. `Pow` of the LRN is a function parameter `pow`.
`-FLT_MAX`, where the pooling accumulators start, is the exact constant
`Reference.Bottom`.

Where a kernel hands a case to another instruction set, the model returns an
outcome and leaves `dst` untouched. This covers the AVX2 LRN, the AVX2 and
NeuralPooling max pooling, and the NCHW4c/NCHW8c formats of the bias and scale
layers.

The model follows the code throughout. Points where the code's behaviour is
not what a reader of the layer names might expect:

- Fused variant 0 reads naturally as `max(x,0) + scale·min(x,0)`. The AVX-512
  lane code computes `(x - abs(x))·scale + max(0,x)`, which is
  `max(x,0) + 2·scale·min(x,0)` (`Formulas.Fused0IsLeaky`). The model
  uses the code's formula.
- The scalar LRN's channel-last loops read outside the row unless
  `count >= 2·half + 1`. Its channel-major loops do so unless `half <= count`.
  These are preconditions of `Base.LrnLayerCrossChannels`.
- The channel-major PReLU tail step of the AVX-512 kernel is guarded by
  `i < count`, which always holds inside its loop. When `size` is a multiple
  of 16, the step therefore runs with an empty mask. It reads and writes
  nothing, so the row is still exact (`AvxChannel.PreluMajorAsWritten`,
  `AvxChannel.PreluTailMaskEmpty`).

## Model

| member | source | states |
|---|---|---|
| Formulas.Fused0IsLeaky | src/Simd/SimdAvx512fSynet.cpp:311-323 | the variant-0 lane formula `(x - abs(x))·scale + max(0,x)` is a leaky ReLU with negative slope `2·scale`: `x` for `x >= 0`, `2·scale·x` below |
| Formulas.Fused1Piecewise | src/Simd/SimdAvx512fSynet.cpp:388-401 | variant 1 is `x + bias1` for `x >= 0` and `bias1 - scale1·x` below zero |
| Formulas.Fused3IsPrelu | src/Simd/SimdAvx512fSynet.cpp:547-563 | variant 3 is PReLU with slope `scale`: the identity on `x >= 0`, `scale·x` below |
| Formulas.RestrictProperties | src/Simd/SimdBaseSynet.cpp:689-695 | with `lower <= upper` a restricted value lies in `[lower, upper]`, values inside are kept, restricting is idempotent, and `min(max(lower,x),upper) == max(lower, min(x,upper))` |
| Reference.RestrictRangeProperties | src/Simd/SimdBaseSynet.cpp:689-695 | every element of the restricted tensor lies in `[lower, upper]`, and restricting twice equals restricting once |
| Layout.IndexOfPlacement | src/Simd/SimdBaseSynet.cpp:32-83 | in every storage order (NCHW, NHWC, NCHWxc) cell (c, s) lies inside the tensor and is read back as channel c |
| Layout.PackedPlacement | src/Simd/SimdBaseSynet.cpp:71-83 | in NCHWxc storage cell (c, s) lies inside the tensor and belongs to channel c |
| Layout.PackedSize | src/Simd/SimdBaseSynet.cpp:71-83 | a packed tensor is `channels/n` blocks of `spatial·n` cells, `channels·spatial` in all |
| Reference.PerChannelPlacement | src/Simd/SimdBaseSynet.cpp:32-83 | every output cell of a per-channel layer is the layer's formula applied to the same cell of the source with its own channel's parameters, in every order |
| Reference.FusedTraversal | src/Simd/SimdBaseSynet.cpp:186-228 | the fused layers' switch `(trans or size == 1) and count != 1` puts channel i of position j at `j·count + i`, otherwise at `i·size + j` |
| Lanes.AlignLo | src/Simd/SimdAvx512fSynet.cpp:59-60 | `AlignLo(n, a)` is the largest multiple of `a` not above `n` |
| Lanes.SegmentBreakpoints | src/Simd/SimdAvx512fSynet.cpp:59-76 | the loop bounds of a row sweep: `aligned <= partial <= n`, `aligned` a multiple of F, and fewer than F cells left for the masked step |
| Lanes.FullMaskLanes | src/Simd/SimdAvx512fSynet.cpp:1168 | the full mask holds exactly lanes 0..15 |
| Lanes.ShiftedMaskLanes | src/Simd/SimdAvx512fSynet.cpp:197 | `__mmask16(-1) >> s` holds exactly the low `16 - s` lanes |
| Lanes.TailMaskOfRow | src/Simd/SimdAvx512fSynet.cpp:195-226 | the row tail mask `__mmask16(-1) >> (F + partial - n)` holds exactly the `n - partial` leftover lanes, and no lane when `n` is a multiple of F |
| Lanes.TailMaskLow | src/Simd/SimdAvx512fSynet.cpp:61 | `TailMask16(k)` holds exactly lanes `0 .. k-1` |
| Lanes.LoadU | src/Simd/SimdAvx512fSynet.cpp:42-52 | an unaligned load reads sixteen existing cells into sixteen lanes |
| Lanes.MaskzLoadU | src/Simd/SimdAvx512fSynet.cpp:1124-1125 | a zero-masked load reads only the lanes of its mask, which must exist, and zeroes the others |
| Lanes.MaskedUpdate | src/Simd/SimdAvx512fSynet.cpp:42-52 | a masked read-modify-write changes exactly the lanes of its mask, each to the lane formula of its old value, and no other cell |
| Lanes.StoreMasked | src/Simd/SimdAvx512fSynet.cpp:1255 | a masked store of the low `n` lanes replaces exactly `n` cells and keeps the rest |
| Base.Unrolled4Row | src/Simd/SimdBaseSynet.cpp:32-50 | the scalar row, four cells per step and then one at a time, writes the formula into exactly its `n` cells |
| Base.AlignedStep | src/Simd/SimdBaseSynet.cpp:34-45 | below an aligned bound, an aligned index has a whole unrolled step left |
| Base.MajorSweep | src/Simd/SimdBaseSynet.cpp:32-50 | one scalar row per channel writes the channel-major reference output |
| Base.LastSweep | src/Simd/SimdBaseSynet.cpp:52-69 | one scalar row per position writes the channel-last reference output |
| Base.PackedSweep | src/Simd/SimdBaseSynet.cpp:71-83 | blocks of `n` channels, position by position, write the NCHWxc reference output |
| Base.PackedCell | src/Simd/SimdBaseSynet.cpp:71-83 | offset t of position s in block b is channel `b·n + t` |
| Base.AddBiasNchw | src/Simd/SimdBaseSynet.cpp:32-50 | `dst += bias[c]` in channel-major order |
| Base.AddBiasNhwc | src/Simd/SimdBaseSynet.cpp:52-69 | `dst += bias[c]` in channel-last order |
| Base.AddBiasNchwXc | src/Simd/SimdBaseSynet.cpp:71-83 | `dst += bias[c]` in NCHWxc order |
| Base.AddBias | src/Simd/SimdBaseSynet.cpp:85-99 | a supported format gets `dst += bias[c]` in the order it selects; an unsupported one (the `assert(0)` branch) leaves `dst` unchanged |
| Base.ScaleLayerForwardNchw | src/Simd/SimdBaseSynet.cpp:697-739 | `dst = src·scale[c] (+ bias[c])`, channel-major |
| Base.ScaleLayerForwardNhwc | src/Simd/SimdBaseSynet.cpp:741-781 | `dst = src·scale[c] (+ bias[c])`, channel-last |
| Base.ScaleLayerForwardNchwXc | src/Simd/SimdBaseSynet.cpp:783-814 | `dst = src·scale[c] (+ bias[c])`, NCHWxc |
| Base.ScaleLayerForward | src/Simd/SimdBaseSynet.cpp:816-830 | the scale dispatcher computes the reference output in the selected order, or leaves `dst` unchanged for an unsupported format |
| Base.FusedLayerForward0 | src/Simd/SimdBaseSynet.cpp:186-228 | every cell is variant 0 of its biased source with its channel's scale, in the fused order |
| Base.FusedLayerForward1 | src/Simd/SimdBaseSynet.cpp:230-273 | every cell is variant 1 with its channel's `bias0`, `scale1`, `bias1` |
| Base.FusedLayerForward2 | src/Simd/SimdBaseSynet.cpp:275-318 | every cell is variant 2 of `src·scale[c] + bias[c]` with the shared slope |
| Base.FusedLayerForward3 | src/Simd/SimdBaseSynet.cpp:320-362 | every cell is variant 3 with its channel's bias and scale |
| Base.FusedLayerForward4 | src/Simd/SimdBaseSynet.cpp:364-410 | the `2·count·size` buffer holds both variant-4 outputs in the reference placement |
| Base.Fused4RowLast | src/Simd/SimdBaseSynet.cpp:368-386 | a channel-last row of variant 4 holds the first outputs then the second outputs of its position |
| Base.Fused4RowMajor | src/Simd/SimdBaseSynet.cpp:388-409 | a channel-major row of variant 4 lands in the first half, its second outputs `count·size` further on |
| Base.FusedLayerForward8 | src/Simd/SimdBaseSynet.cpp:412-455 | every cell is `src0 + src1·src2[c]` |
| Base.FusedLayerForward9 | src/Simd/SimdBaseSynet.cpp:457-509 | `dst0` is variant 9 over the channel concatenation of `src0` and `src1` (second-group parameters from `count0`); `dst1`, when given, is the concatenation |
| Base.Fused9FirstRowLast | src/Simd/SimdBaseSynet.cpp:461-487 | a channel-last row of variant 9 holds the first group's outputs at the start of the output row |
| Base.Fused9SecondRowLast | src/Simd/SimdBaseSynet.cpp:461-487 | a channel-last row of variant 9 holds the second group's outputs after `count0` cells |
| Base.Fused9FirstRowMajor | src/Simd/SimdBaseSynet.cpp:488-508 | a channel-major row of the first group lands at `i·size` |
| Base.Fused9SecondRowMajor | src/Simd/SimdBaseSynet.cpp:488-508 | a channel-major row of the second group lands at `count0·size + i·size` |
| Base.PreluLayerForward | src/Simd/SimdBaseSynet.cpp:646-687 | every cell is `max(0,x) + slope[c]·min(0,x)` in the fused order |
| Base.RestrictRangeForward | src/Simd/SimdBaseSynet.cpp:689-695 | every cell is `min(max(lower, x), upper)` |
| Base.EltwiseLayerForwardFold | src/Simd/SimdBaseSynet.cpp:103-131 | product, max or min: every cell is the left fold of the sources at that cell |
| Base.EltwiseLayerForwardSum | src/Simd/SimdBaseSynet.cpp:133-163 | every cell is the weighted sum of the sources at that cell |
| Base.EltwiseLayerForward | src/Simd/SimdBaseSynet.cpp:165-184 | the dispatcher computes the reference eltwise output of the operation |
| Reference.FoldMaxIsMaximum | src/Simd/SimdBaseSynet.cpp:103-131 | the max fold bounds every source and equals one of them |
| Reference.FoldMinIsMinimum | src/Simd/SimdBaseSynet.cpp:103-131 | the min fold is below every source and equals one of them |
| Reference.FoldProductIsProduct | src/Simd/SimdBaseSynet.cpp:103-131 | the product fold is the product of all sources |
| Base.RowDot | src/Simd/SimdBaseSynet.cpp:516-527 | four strided partial sums over the aligned part, plus the tail added to the first, equal the row's dot product |
| Reference.StridedSumsAddUp | src/Simd/SimdBaseSynet.cpp:517-527 | the four strided partial sums add up to the dot product of the first `4·m` terms |
| Reference.DotSplit | src/Simd/SimdBaseSynet.cpp:518-526 | a dot product splits at any midpoint |
| Base.InnerProductLayerForward | src/Simd/SimdBaseSynet.cpp:511-530 | `dst[i] = Σ_j src[j]·weight[i·size+j] + bias[i]`, bias zero when absent |
| Reference.WindowSlide | src/Simd/SimdBaseSynet.cpp:549-559 | moving the window from channel `i-1` to `i` adds the square of channel `i+half` when it exists and removes that of `i-half-1` when it exists |
| Reference.WindowEdges | src/Simd/SimdBaseSynet.cpp:537-559 | with `count >= 2·half+1`, the first `half+1` windows start at channel 0 and the last `half+1` end at the last channel |
| Reference.LrnCellLast | src/Simd/SimdBaseSynet.cpp:535-563 | channel-last cell (j, i) is `src·pow(k0 + k1·window, k2)` with the window taken along its position's row |
| Reference.LrnCellMajor | src/Simd/SimdBaseSynet.cpp:564-586 | channel-major cell (i, t) is normalized by its window down column t |
| Base.SlideLast | src/Simd/SimdBaseSynet.cpp:549-559 | the running sum of the channel-last loops follows the window recurrence with the cells it reads |
| Base.LastRowMeetsSpec | src/Simd/SimdBaseSynet.cpp:539-562 | a row written by the channel-last loops extends the prefix that agrees with the normalization |
| Base.MajorRowMeetsSpec | src/Simd/SimdBaseSynet.cpp:573-585 | a row written by the channel-major loop extends the prefix that agrees with the normalization |
| Base.MajorStepSums | src/Simd/SimdBaseSynet.cpp:577-582 | one cell of the channel-major loop advances its running sum from the window of channel i-1 to that of channel i, keeping the sums before it at channel i and those after it at i-1 |
| Base.MajorStepRow | src/Simd/SimdBaseSynet.cpp:577-582 | one cell of the channel-major loop writes the normalized cell of channel i and leaves the earlier rows unchanged |
| Base.SlideMajor | src/Simd/SimdBaseSynet.cpp:575-580 | the channel-major running sum moves from the window of channel `i-1` to that of channel `i`, reading zero for channels outside the tensor |
| Base.NeighboursMajor | src/Simd/SimdBaseSynet.cpp:575-576 | the entering and leaving channels are `i+half` and `i-half-1`, or zero where outside the tensor |
| Base.LrnLayerCrossChannels | src/Simd/SimdBaseSynet.cpp:532-587 | `dst = src·pow(k0 + k1·Σ window², k2)` in either order |
| Reference.WindowRows | src/Simd/SimdBaseSynet.cpp:596-603 | the clamped window of output p holds exactly the rows that the kernel placed at `p·stride - pad` covers and that exist |
| Reference.FoldIsWindowMax | src/Simd/SimdBaseSynet.cpp:604-614 | the pooled fold is at least every cell of the window and the start value, and equals one of them |
| Reference.FoldColsIsRowMax | src/Simd/SimdBaseSynet.cpp:608-613 | the fold over one window row is its maximum with the start value |
| Reference.EmptyWindowIsBottom | src/Simd/SimdBaseSynet.cpp:604-614 | an empty window pools to `-FLT_MAX` |
| Reference.PoolLayoutsAgree | src/Simd/SimdBaseSynet.cpp:589-644 | channel-last and channel-major storage of the same tensor pool to the same value at every channel and output position |
| Reference.PoolAtAgrees | src/Simd/SimdBaseSynet.cpp:589-644 | the pooled value of one channel at one position does not depend on the storage order |
| Reference.PoolHwcAt | src/Simd/SimdBaseSynet.cpp:592-618 | channel c of output (ph, pw) sits at `(ph·dstW + pw)·srcC + c` and is that window's pooled value |
| Reference.PoolChwAt | src/Simd/SimdBaseSynet.cpp:619-643 | channel c of output (ph, pw) sits at `(c·dstH + ph)·dstW + pw` and is that window's pooled value |
| BasePooling.PoolRowMax | src/Simd/SimdBaseSynet.cpp:635-636 | one window row folded into the running maximum |
| BasePooling.PoolWindowMax | src/Simd/SimdBaseSynet.cpp:633-637 | a channel's window folded from `-FLT_MAX` |
| BasePooling.PoolingMaxChw | src/Simd/SimdBaseSynet.cpp:619-643 | with the corrected (clamped) window, the channel-major branch writes the channel-major pooled tensor |
| BasePooling.MaxIntoRow | src/Simd/SimdBaseSynet.cpp:610-612 | `dst[c] = max(dst[c], pc[c])` for the `srcC` cells of one position, nothing else changes |
| BasePooling.PoolPositionHwc | src/Simd/SimdBaseSynet.cpp:600-615 | every channel of one position holds its window's maximum, no other cell changes |
| BasePooling.PoolingMaxHwc | src/Simd/SimdBaseSynet.cpp:592-617 | with the corrected (clamped) window, the channel-last branch writes the channel-last pooled tensor |
| BasePooling.PoolingForwardMax | src/Simd/SimdBaseSynet.cpp:589-644 | with the corrected (clamped) window, `trans` selects channel-last pooling, otherwise channel-major |
| AvxRows.VectorRow | src/Simd/SimdAvx512fSynet.cpp:54-79 | the QF steps, F steps and masked tail step write the formula into exactly the row's `n` cells |
| AvxRows.VectorTwoRows | src/Simd/SimdAvx512fSynet.cpp:642-699 | two rows of one buffer from one source row, each with its own formula |
| AvxRows.VectorPairRow | src/Simd/SimdAvx512fSynet.cpp:814-979 | the same row of two buffers from one source row |
| AvxChannel.MajorSweep | src/Simd/SimdAvx512fSynet.cpp:54-79 | one vector row per channel writes the channel-major reference output |
| AvxChannel.LastSweep | src/Simd/SimdAvx512fSynet.cpp:89-113 | one vector row per position writes the channel-last reference output |
| AvxChannel.Packed16Sweep | src/Simd/SimdAvx512fSynet.cpp:123-143 | NCHW16c: four positions per step, then one, one full register per position, write the packed reference output |
| AvxChannel.RouteAgreesWithBase | src/Simd/SimdAvx512fSynet.cpp:153-167 | the AVX-512 dispatcher computes exactly the channel-major, channel-last and NCHW16c orders the scalar one selects, delegates NCHW4c/8c, and rejects what the scalar one rejects |
| AvxChannel.AddBiasNchw | src/Simd/SimdAvx512fSynet.cpp:54-87 | `dst += bias[c]`, channel-major |
| AvxChannel.AddBiasNhwc | src/Simd/SimdAvx512fSynet.cpp:89-121 | `dst += bias[c]`, channel-last |
| AvxChannel.AddBiasNchw16c | src/Simd/SimdAvx512fSynet.cpp:123-151 | `dst += bias[c]`, NCHW16c |
| AvxChannel.AddBias | src/Simd/SimdAvx512fSynet.cpp:153-167 | when computed, the same tensor as the scalar dispatcher; otherwise `dst` unchanged |
| AvxChannel.ScaleLayerForwardNchw | src/Simd/SimdAvx512fSynet.cpp:1640-1699 | `dst = src·scale[c] (+ bias[c])`, channel-major |
| AvxChannel.ScaleLayerForwardNhwc | src/Simd/SimdAvx512fSynet.cpp:1701-1749 | `dst = src·scale[c] (+ bias[c])`, channel-last, for other than three channels |
| AvxChannel.Replicate3 | src/Simd/SimdAvx512fSynet.cpp:1763-1772 | the replicated parameter buffer holds `v[i mod 3]` at cell i |
| AvxChannel.Nhwc3Lane | src/Simd/SimdAvx512fSynet.cpp:1773-1778 | lane o of the three-register step at a position boundary computes cell `s + o` with channel `(s+o) mod 3` |
| AvxChannel.Nhwc3Placement | src/Simd/SimdAvx512fSynet.cpp:1773-1785 | a channel-last three-channel tensor is the row whose cell i is channel `i mod 3` |
| AvxChannel.ScaleLayerForwardNhwc3 | src/Simd/SimdAvx512fSynet.cpp:1751-1831 | the three-channel channel-last path writes the channel-last reference output |
| AvxChannel.ScaleLayerForwardNchw16c | src/Simd/SimdAvx512fSynet.cpp:1833-1887 | `dst = src·scale[c] (+ bias[c])`, NCHW16c |
| AvxChannel.ScaleLayerForward | src/Simd/SimdAvx512fSynet.cpp:1889-1903 | when computed, the same tensor as the scalar dispatcher; otherwise `dst` unchanged |
| AvxChannel.FusedLayerForward0 | src/Simd/SimdAvx512fSynet.cpp:325-386 | the same tensor as the scalar variant 0 |
| AvxChannel.FusedLayerForward1 | src/Simd/SimdAvx512fSynet.cpp:403-464 | the same tensor as the scalar variant 1 |
| AvxChannel.FusedLayerForward2 | src/Simd/SimdAvx512fSynet.cpp:484-545 | the same tensor as the scalar variant 2 |
| AvxChannel.FusedLayerForward3 | src/Simd/SimdAvx512fSynet.cpp:565-626 | the same tensor as the scalar variant 3 |
| AvxChannel.FusedLayerForward8 | src/Simd/SimdAvx512fSynet.cpp:721-782 | the same tensor as the scalar variant 8 |
| AvxChannel.PreluLayerForward | src/Simd/SimdAvx512fSynet.cpp:1413-1472 | the same tensor as the scalar PReLU |
| AvxChannel.PreluMajorAsWritten | src/Simd/SimdAvx512fSynet.cpp:1441-1462 | the channel-major sweep with its always-taken tail step is still exact |
| AvxChannel.PreluTailMaskEmpty | src/Simd/SimdAvx512fSynet.cpp:1443-1459 | when `size` is a multiple of F the tail step's mask is empty |
| AvxChannel.RestrictRangeForward | src/Simd/SimdAvx512fSynet.cpp:1474-1508 | the same tensor as the scalar range restriction |
| AvxEltwise.EltwiseLayerForwardFold | src/Simd/SimdAvx512fSynet.cpp:193-227 | every cell is the left fold of the sources, lane by lane |
| AvxEltwise.EltwiseLayerForwardSum | src/Simd/SimdAvx512fSynet.cpp:239-276 | every cell is the weighted sum of the sources |
| AvxEltwise.EltwiseLayerForward | src/Simd/SimdAvx512fSynet.cpp:278-309 | the same tensor as the scalar eltwise |
| AvxFused.FusedLayerForward4 | src/Simd/SimdAvx512fSynet.cpp:642-707 | the same buffer as the scalar variant 4 |
| AvxFused.FusedLayerForward9 | src/Simd/SimdAvx512fSynet.cpp:814-987 | the same outputs as the scalar variant 9 |
| AvxInnerProduct.AddPsExtract | src/Simd/SimdAvx512fSynet.cpp:1078-1081 | the lane sum of a sum of registers is the sum of their lane sums |
| AvxInnerProduct.FmaddMaskedLoads | src/Simd/SimdAvx512fSynet.cpp:1026-1032 | a masked fused multiply-add of `m` lanes adds exactly the `m` terms from `at` and reads nothing past them |
| AvxInnerProduct.RowPair | src/Simd/SimdAvx512fSynet.cpp:1057-1077 | a two-register step of one weight row adds the next `2F` terms of its dot product |
| AvxInnerProduct.RowTail | src/Simd/SimdAvx512fSynet.cpp:1095-1107 | the masked step of one weight row completes its dot product |
| AvxInnerProduct.TailLanes | src/Simd/SimdAvx512fSynet.cpp:1097 | `__mmask16(-1) >> (16 + k - K)` holds exactly the `K - k` leftover lanes |
| AvxInnerProduct.InnerProductForward1 | src/Simd/SimdAvx512fSynet.cpp:989-1034 | the one-row kernel writes `Σ_k src[k]·W[k] + B[0]` into its cell and nothing else |
| AvxInnerProduct.PairBreakpoints | src/Simd/SimdAvx512fSynet.cpp:1038-1039 | `K32 <= K16 <= K` and `K32` a multiple of 16 |
| AvxInnerProduct.InnerProductForward4 | src/Simd/SimdAvx512fSynet.cpp:1036-1109 | with the corrected loop bound, the four-row kernel writes the four dot products plus biases into its four cells and nothing else |
| AvxInnerProduct.StepLoadsTile | src/Simd/SimdAvx512fSynet.cpp:1057-1094 | a loop between two multiples of its step loads each cell of the range once, nothing else, and exits at the bound |
| AvxInnerProduct.StepLoadsOvershoot | src/Simd/SimdAvx512fSynet.cpp:1057 | a loop whose bound is not a multiple of its step ends with a load past the bound |
| AvxInnerProduct.TilesInside | src/Simd/SimdAvx512fSynet.cpp:1036-1109 | loads that tile a range read nothing outside it |
| AvxInnerProduct.Forward4LoadsCorrected | src/Simd/SimdAvx512fSynet.cpp:1051-1107 | with bound `K32` the loads of each weight row tile `[0, K)` exactly |
| AvxInnerProduct.Forward4LoadsAsWritten | src/Simd/SimdAvx512fSynet.cpp:1057 | with the written bound `K16`, whenever `K >= 32` and `K mod 32 >= 16`, the last load is the register pair at `K32`, ending past `K` |
| AvxInnerProduct.Forward4LoadsAgree | src/Simd/SimdAvx512fSynet.cpp:1057 | for every other `K` the written and the corrected bounds give the same loads |
| AvxInnerProduct.Forward4Loads48 | src/Simd/SimdAvx512fSynet.cpp:1057 | for `K = 48` the written loop loads `[32, 64)`, the corrected one `[32, 48)` |
| AvxInnerProduct.InnerProductLayerForward | src/Simd/SimdAvx512fSynet.cpp:1111-1120 | with the corrected `K32` pair-loop bound in the four-row kernel, four outputs at a time, then one at a time: the same tensor as the scalar inner product |
| AvxLrn.EdgeMasks | src/Simd/SimdAvx512fSynet.cpp:1122-1150 | `0xFFFC`, `0xFFFE`, `0x7FFF`, `0x3FFF` switch off exactly the lanes that would read outside the row |
| AvxLrn.NoseWindows | src/Simd/SimdAvx512fSynet.cpp:1122-1130 | lane l of the first register is the window of channel l |
| AvxLrn.BodyWindows | src/Simd/SimdAvx512fSynet.cpp:1132-1140 | lane l of a body register at channel `i >= 2` is the window of channel `i + l` |
| AvxLrn.TailWindows | src/Simd/SimdAvx512fSynet.cpp:1142-1150 | lane l of the last register, at `count - F`, is the window of channel `count - F + l` |
| AvxLrn.ExtraStoreReadsBeforeRow | src/Simd/SimdAvx512fSynet.cpp:1171-1175 | with `count = 19` the written guard stores the body register at channel 1, whose lane 0 adds the square of the cell before the row |
| AvxLrn.LastRowFast | src/Simd/SimdAvx512fSynet.cpp:1168-1177 | with the corrected guard, one position's row is normalized and nothing else changes |
| AvxLrn.StoredRowDone | src/Simd/SimdAvx512fSynet.cpp:1168-1177 | a row written by the fast path keeps the rows before it and holds the channel-last normalization |
| AvxLrn.WarmUp | src/Simd/SimdAvx512fSynet.cpp:1188-1203 | the warm-up leaves in `sum` the squares of the first `half` channels at every position |
| AvxLrn.WarmLanes | src/Simd/SimdAvx512fSynet.cpp:1194-1201 | lane l of a warm-up register adds channel i at position `j + l` |
| AvxLrn.SlideLanes | src/Simd/SimdAvx512fSynet.cpp:1207-1225 | lane l of the slide register is the window of channel i at position `j + l`, given that of channel `i-1` |
| AvxLrn.NeighbourRows | src/Simd/SimdAvx512fSynet.cpp:1207-1208 | the rows of the entering and leaving channels lie in the tensor when they exist |
| AvxLrn.NormalizeLanes | src/Simd/SimdAvx512fSynet.cpp:1216-1228 | each lane under the mask is its cell times `pow(k0 + k1·window, k2)` |
| AvxLrn.Channel | src/Simd/SimdAvx512fSynet.cpp:1207-1229 | one channel's row is normalized and the running sums advance to its windows |
| AvxLrn.Major | src/Simd/SimdAvx512fSynet.cpp:1184-1232 | the channel-major path writes the channel-major normalization |
| AvxLrn.LrnLayerCrossChannels | src/Simd/SimdAvx512fSynet.cpp:1152-1242 | computed exactly when not channel-last or `half == 2` and `count >= F + half`; then, with the corrected extra-store guard `count - half - F >= half`, the same tensor as the scalar LRN, otherwise `dst` unchanged |
| AvxPooling.ColumnStep | src/Simd/SimdAvx512fSynet.cpp:1249-1252 | one more column folds channel `c + r·F + l` of pixel (h, w) into lane l of register r |
| AvxPooling.RowStep | src/Simd/SimdAvx512fSynet.cpp:1247-1254 | a fully folded row, or a skipped empty one, joins the folded rows |
| AvxPooling.FoldWindow | src/Simd/SimdAvx512fSynet.cpp:1244-1331 | the `b` registers start at `-FLT_MAX` and end with the window maximum of each of their channels |
| AvxPooling.PoolBlock | src/Simd/SimdAvx512fSynet.cpp:1244-1331 | `PoolingMaxHwc1/2/4/8` store the window maximum of their `(b-1)·F + n` channels and change nothing else |
| AvxPooling.Breakpoints | src/Simd/SimdAvx512fSynet.cpp:1339-1344 | `srcCF8 <= srcCF4 <= srcCF2 <= srcCF1 <= srcC`, each a multiple of the next step, fewer than F channels left |
| AvxPooling.PoolBatchesTile | src/Simd/SimdAvx512fSynet.cpp:1356-1366 | the batches of 8F, 4F, 2F and F channels and the masked tail cover every channel once, in order |
| AvxPooling.Batches | src/Simd/SimdAvx512fSynet.cpp:1357-1364 | a channel loop of `b·F` steps pools every channel up to its bound and exits there |
| AvxPooling.PoolPosition | src/Simd/SimdAvx512fSynet.cpp:1352-1367 | every channel of one output position holds its window's maximum, nothing else changes |
| AvxPooling.PoolRow | src/Simd/SimdAvx512fSynet.cpp:1345-1369 | one output row extends the prefix that agrees with the reference |
| AvxPooling.PoolRows | src/Simd/SimdAvx512fSynet.cpp:1345-1369 | the rows written one after the other give exactly the reference output, cell for cell |
| AvxPooling.SynetPoolingForwardMax | src/Simd/SimdAvx512fSynet.cpp:1333-1393 | with `trans` and the corrected (clamped) window, the same tensor as the scalar channel-last pooling; otherwise delegated and `dst` unchanged |
| Reference.WindowAsWrittenAgrees | src/Simd/SimdBaseSynet.cpp:596-598 | while the padding does not pass the far edge of the kernel, the wrapped `size_t` window is the clamped window |
| Reference.WindowAsWrittenWraps | src/Simd/SimdBaseSynet.cpp:596-598 | once the padding passes the far edge, the written window becomes all rows `[0, extent)` where the clamped one is empty |

## Left out

- Floating point: values are exact reals, so rounding, NaN and infinities are not modelled. `-FLT_MAX` is an exact constant. `Pow` is an uninterpreted function parameter.
- `SynetSoftmaxLayerForward` (scalar and AVX-512): it needs `exp` and a maximum search over floats, and is not part of this model.
- AVX2, AVX, SSE and NeuralPooling kernels are outside this model. Where an AVX-512 kernel hands work to them, the model returns a delegated outcome and leaves `dst` as it was. This covers the channel-last LRN other than `half == 2`, `count >= F + half`; channel-major max pooling; and the NCHW4c/NCHW8c bias and scale.
- Masks: the kernels build their tail masks in two ways, and both select the same low lanes (`Lanes.TailMaskLow`, `Lanes.TailMaskOfRow`). The shared row model `AvxRows` uses the shifted form for all of them.
  - `TailMask16(k)` is used by bias add (src/Simd/SimdAvx512fSynet.cpp:61, 96), fused 8 (729, 753), fused 9 (824, 827, 903), LRN (1185), max pooling (1344), restrict range (1497), scale NCHW/NHWC (1647, 1708) and softmax (1946).
  - `__mmask16(-1) >> (F + partial - n)` is used by eltwise (197, 243), fused 0 to 4 (334 to 678), PReLU (1421, 1444) and the generic scale kernel (1547, 1593). The inner product uses `__mmask16(-1) >> (16 + k - K)` (1028, 1097).
- Lanes.TailMask16: its header is not part of this model. `Lanes.TailMask16` is defined as the mask of the low `k` lanes (`__mmask16(-1) >> (16 - k)`), which is an assumption about that header.
- Aligned versus unaligned loads: the `align` template parameter only selects the instruction, and both read the same cells. The model has one load per kind. Alignment checks (`Aligned(...)`) are not modelled.
- In-place calls, where `dst` aliases `src`, are not modelled: sources are sequences separate from the destination array.
- Per-element helpers of the scalar kernels: `SynetFusedLayerForward0..3`, `SynetFusedLayerForward8`, `SynetFusedLayerForward9`, `SynetPreluLayerForward` and `Simd::RestrictRange` (for example at src/Simd/SimdBaseSynet.cpp:196) are declared in a header that is not part of this model. Module `Formulas` defines each by the AVX-512 lane formula, so the `Base.*` fused, PReLU and restrict-range rows assume that the scalar helpers compute the same formula as the vector lanes. Nothing here proves that agreement.
- `NchwCompatible` and `NhwcCompatible` are defined outside these files and are parameters of the dispatchers.
- `Array32f`, `memcpy` and `memset` are modelled by their effect on a sequence or array.
- `_mm512_reduce_add_ps`-style `ExtractSum` is the exact sum of the sixteen lanes. The order of the horizontal additions is not modelled.
- AvxPooling.PoolBlock: stands for `PoolingMaxHwc1/2/4/8`; their unrolled register stores are one store loop over `b` registers.
- AvxPooling.SynetPoolingForwardMax: uses the clamped window. The source computes the window in `size_t` (src/Simd/SimdAvx512fSynet.cpp:1347-1354) and can wrap in two ways, neither of which is modelled. When the padding passes the far edge of the kernel, the window becomes all rows (see "## Findings"). When the window starts past the far edge of the source (`ph·strideY - padY >= srcH`), `hEnd - hStart` wraps.
- BasePooling.PoolingMaxHwc: uses the clamped window, not the `size_t` window of src/Simd/SimdBaseSynet.cpp:596-598 and 601-603. When the padding passes the far edge of the kernel, the source pools all rows (or columns) where the model's window is empty (`Reference.WindowAsWrittenWraps`).
- BasePooling.PoolingMaxChw: the same, for the identical window code at src/Simd/SimdBaseSynet.cpp:625-627 and 630-632.
- BasePooling.PoolingForwardMax: inherits the clamped window of the two kernels above.
- AvxLrn.LrnLayerCrossChannels: proves the channel-last fast path with the extra store guarded by `count - half - F >= half`. The source stores it whenever `aligned != count - half` (src/Simd/SimdAvx512fSynet.cpp:1171-1174), which at `count == 19` reads the cell before the row (see "## Findings").
- AvxInnerProduct.InnerProductLayerForward: proves the four-row kernel with the pair loop bounded by `K32`. The source bounds it by `K16` (src/Simd/SimdAvx512fSynet.cpp:1057), which loads past the row when `K % 32 >= 16` (see "## Findings").
- Base.LrnLayerCrossChannels: requires `count >= 2·half + 1` channel-last and `half <= count` channel-major. Outside those bounds the source reads outside the tensor.

## Findings

| source | as written | input that shows it | evidently intended | confidence | as-written member | corrected member |
|---|---|---|---|---|---|---|
| src/Simd/SimdAvx512fSynet.cpp:1057 | the two-register loop of `SynetInnerProductLayerForward4` runs `for (; k < K16; k += 32)` | `K = 48`: the loop loads cells `[32, 64)` of each weight row and source, 16 past the row | `k < K32`, so the single-register loop takes `[32, 48)` | not executed | AvxInnerProduct.Forward4LoadsAsWritten | AvxInnerProduct.Forward4LoadsCorrected |
| src/Simd/SimdAvx512fSynet.cpp:1170-1174 | the channel-last LRN stores an extra body register at `count - half - F` whenever `aligned != count - half` | `count = 19`, `half = 2`: the register at channel 1 reads the cell before the row, and channel 1's window gains the previous position's last channel | store the extra register only when `count - half - F >= half` (the nose register already covers channel 1) | not executed | AvxLrn.ExtraStoreReadsBeforeRow | AvxLrn.LastRowFast |
| src/Simd/SimdBaseSynet.cpp:596-598 | `hStart = ph·strideY - padY` in `size_t`, `hEnd = min(hStart + kernelY, srcH)`, then `hStart` clamped to 0; the channel-major branch repeats it at lines 625-627 | `padY = 5`, `kernelY = 2`, `ph = 0`: `hStart + kernelY` wraps to a huge value, so `hEnd = srcH` and the output pools the whole column instead of an empty window | the window `[max(0, p·s - pad), min(p·s - pad + k, extent))`, empty when it lies outside | not executed | Reference.WindowAsWrittenWraps | Reference.WindowRows |
