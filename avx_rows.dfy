/** The row sweep every AVX-512 driver shares: unrolled steps of QF = 4·F
    cells up to `AlignLo(n, QF)`, single steps of F up to `AlignLo(n, F)`,
    then, when cells are left, one step under the tail mask
    `__mmask16(-1) >> (F + partial - n)`. Each step is a masked 16-lane
    read-modify-write; the sweep is proved to write exactly the `n` cells of
    the row, each as the scalar kernel would, and nothing else. */
module AvxRows {
  import opened Lanes
  import opened Layout
  import opened Reference
  import Base

  /** One vector step at row offset `s` under `mask`, whose set lanes are
      exactly the first `k`: cells `at + s .. at + s + k - 1` receive `g` of
      their source cells. The mask keeps both the load from `src` and the
      store into `dst` inside their buffers. */
  method VectorStep(src: seq<real>, from: nat, dst: array<real>, at: nat, s: nat, mask: bv16, k: nat,
                    ch: nat -> nat, g: Cell, ghost d0: seq<real>)
    requires k <= F && forall l: nat :: LaneOn(mask, l) <==> l < k
    requires from + s + k <= |src| && at + s + k <= dst.Length
    requires Base.RowWritten(dst[..], d0, src, from, at, s, ch, g)
    modifies dst
    ensures Base.RowWritten(dst[..], d0, src, from, at, s + k, ch, g)
  {
    ghost var before := dst[..];
    MaskedUpdate(dst, at + s, mask, s, (x: real, t: nat) => g(At(src, from + t), from + t, ch(t)));
    forall i | 0 <= i < dst.Length
      ensures dst[i] == if at <= i < at + s + k then g(At(src, from + (i - at)), from + (i - at), ch(i - at)) else d0[i]
    {
      if at + s <= i {
        assert LaneOn(mask, i - (at + s)) <==> i < at + s + k;
      }
    }
  }

  /** A multiple of QF is a multiple of F. */
  lemma QuadAligned(s: nat)
    requires s % QF == 0
    ensures s % F == 0
  {
    var q := s / QF;
    assert s == (q * 4) * F;
    MultipleMod(q * 4, F);
  }

  /** Four full steps (one iteration of the `QF` loop). */
  method VectorQuad(src: seq<real>, from: nat, dst: array<real>, at: nat, s: nat, ch: nat -> nat, g: Cell, ghost d0: seq<real>)
    requires from + s + QF <= |src| && at + s + QF <= dst.Length
    requires Base.RowWritten(dst[..], d0, src, from, at, s, ch, g)
    modifies dst
    ensures Base.RowWritten(dst[..], d0, src, from, at, s + QF, ch, g)
  {
    VectorStep(src, from, dst, at, s, FullMask, F, ch, g, d0);
    VectorStep(src, from, dst, at, s + F, FullMask, F, ch, g, d0);
    VectorStep(src, from, dst, at, s + 2 * F, FullMask, F, ch, g, d0);
    VectorStep(src, from, dst, at, s + 3 * F, FullMask, F, ch, g, d0);
  }

  /** The unmasked part of an AVX-512 row: QF steps up to `AlignLo(n, QF)`,
      then F steps up to `AlignLo(n, F)`, which it returns. */
  method VectorBody(src: seq<real>, from: nat, dst: array<real>, at: nat, n: nat, ch: nat -> nat, g: Cell)
      returns (s: nat)
    requires from + n <= |src| && at + n <= dst.Length
    modifies dst
    ensures s == AlignLo(n, F)
    ensures Base.RowWritten(dst[..], old(dst[..]), src, from, at, s, ch, g)
  {
    ghost var d0 := dst[..];
    var aligned := AlignLo(n, QF);
    var partial := AlignLo(n, F);
    SegmentBreakpoints(n);
    s := 0;
    while s < aligned
      invariant s <= aligned && s % QF == 0
      invariant Base.RowWritten(dst[..], d0, src, from, at, s, ch, g)
    {
      Base.AlignedStep(s, aligned, QF);
      VectorQuad(src, from, dst, at, s, ch, g, d0);
      s := s + QF;
    }
    QuadAligned(s);
    while s < partial
      invariant aligned <= s <= partial && s % F == 0
      invariant Base.RowWritten(dst[..], d0, src, from, at, s, ch, g)
    {
      Base.AlignedStep(s, partial, F);
      VectorStep(src, from, dst, at, s, FullMask, F, ch, g, d0);
      s := s + F;
    }
  }

  /** The masked step at `s = AlignLo(n, F)` under
      `__mmask16(-1) >> (F + partial - n)`: it completes the row, and when
      nothing is left (`s == n`) its mask is empty and it writes nothing. */
  method VectorTail(src: seq<real>, from: nat, dst: array<real>, at: nat, n: nat, s: nat,
                    ch: nat -> nat, g: Cell, ghost d0: seq<real>)
    requires s == AlignLo(n, F)
    requires from + n <= |src| && at + n <= dst.Length
    requires Base.RowWritten(dst[..], d0, src, from, at, s, ch, g)
    modifies dst
    ensures Base.RowWritten(dst[..], d0, src, from, at, n, ch, g)
  {
    var tail := ShiftedMask(F + s - n);
    forall l: nat
      ensures LaneOn(tail, l) <==> l < n - s
    {
      TailMaskOfRow(n, l);
    }
    VectorStep(src, from, dst, at, s, tail, n - s, ch, g, d0);
  }

  /** The AVX-512 row: QF steps, F steps, and the masked step when cells are
      left (`if (s < n)`). */
  method VectorRow(src: seq<real>, from: nat, dst: array<real>, at: nat, n: nat, ch: nat -> nat, g: Cell)
    requires from + n <= |src| && at + n <= dst.Length
    modifies dst
    ensures Base.RowWritten(dst[..], old(dst[..]), src, from, at, n, ch, g)
  {
    ghost var d0 := dst[..];
    var s := VectorBody(src, from, dst, at, n, ch, g);
    if s < n {
      VectorTail(src, from, dst, at, n, s, ch, g, d0);
    }
  }

  /** The row as the channel-major PReLU kernel writes it: its masked step is
      guarded by the channel counter, which is always in range, so the step
      runs even when `n` is a multiple of F. The row is still exact. */
  method VectorRowAlwaysTail(src: seq<real>, from: nat, dst: array<real>, at: nat, n: nat, ch: nat -> nat, g: Cell)
    requires from + n <= |src| && at + n <= dst.Length
    modifies dst
    ensures Base.RowWritten(dst[..], old(dst[..]), src, from, at, n, ch, g)
  {
    ghost var d0 := dst[..];
    var s := VectorBody(src, from, dst, at, n, ch, g);
    VectorTail(src, from, dst, at, n, s, ch, g, d0);
  }

  // ---------------------------------------------------------------------
  // Two stores per step: fused variant 4 writes two rows of one buffer,
  // fused variant 9 the same row of two buffers.

  /** Row `at0` written up to `n0` and row `at1` up to `n1`: the state
      between the two stores of one step of a two-row sweep. */
  ghost predicate StaggeredRows(d: seq<real>, d0: seq<real>, src: seq<real>, from: nat, at0: nat, n0: nat, at1: nat, n1: nat,
                                ch: nat -> nat, g0: Cell, g1: Cell)
  {
    |d| == |d0| &&
    forall k :: 0 <= k < |d| ==>
      d[k] == if at0 <= k < at0 + n0 then g0(At(src, from + (k - at0)), from + (k - at0), ch(k - at0))
              else if at1 <= k < at1 + n1 then g1(At(src, from + (k - at1)), from + (k - at1), ch(k - at1))
              else d0[k]
  }

  /** The store of row `at0` within a two-row step. */
  method StoreFirst(src: seq<real>, from: nat, dst: array<real>, at0: nat, at1: nat, s: nat, mask: bv16, k: nat,
                    ch: nat -> nat, g0: Cell, g1: Cell, ghost d0: seq<real>)
    requires k <= F && forall l: nat :: LaneOn(mask, l) <==> l < k
    requires from + s + k <= |src| && at0 + s + k <= at1 && at1 + s + k <= dst.Length
    requires StaggeredRows(dst[..], d0, src, from, at0, s, at1, s, ch, g0, g1)
    modifies dst
    ensures StaggeredRows(dst[..], d0, src, from, at0, s + k, at1, s, ch, g0, g1)
  {
    ghost var before := dst[..];
    MaskedUpdate(dst, at0 + s, mask, s, (x: real, t: nat) => g0(At(src, from + t), from + t, ch(t)));
    forall i | 0 <= i < dst.Length
      ensures dst[i] == if at0 <= i < at0 + s + k then g0(At(src, from + (i - at0)), from + (i - at0), ch(i - at0))
                        else if at1 <= i < at1 + s then g1(At(src, from + (i - at1)), from + (i - at1), ch(i - at1))
                        else d0[i]
    {
      if at0 + s <= i {
        assert LaneOn(mask, i - (at0 + s)) <==> i < at0 + s + k;
      }
    }
  }

  /** The store of row `at1` within a two-row step. */
  method StoreSecond(src: seq<real>, from: nat, dst: array<real>, at0: nat, at1: nat, s: nat, mask: bv16, k: nat,
                     ch: nat -> nat, g0: Cell, g1: Cell, ghost d0: seq<real>)
    requires k <= F && forall l: nat :: LaneOn(mask, l) <==> l < k
    requires from + s + k <= |src| && at0 + s + k <= at1 && at1 + s + k <= dst.Length
    requires StaggeredRows(dst[..], d0, src, from, at0, s + k, at1, s, ch, g0, g1)
    modifies dst
    ensures StaggeredRows(dst[..], d0, src, from, at0, s + k, at1, s + k, ch, g0, g1)
  {
    ghost var before := dst[..];
    MaskedUpdate(dst, at1 + s, mask, s, (x: real, t: nat) => g1(At(src, from + t), from + t, ch(t)));
    forall i | 0 <= i < dst.Length
      ensures dst[i] == if at0 <= i < at0 + s + k then g0(At(src, from + (i - at0)), from + (i - at0), ch(i - at0))
                        else if at1 <= i < at1 + s + k then g1(At(src, from + (i - at1)), from + (i - at1), ch(i - at1))
                        else d0[i]
    {
      if at1 + s <= i {
        assert LaneOn(mask, i - (at1 + s)) <==> i < at1 + s + k;
      }
    }
  }

  /** One step storing `g0` at row `at0` and `g1` at row `at1` of the same
      buffer, under one mask. */
  method VectorTwoStep(src: seq<real>, from: nat, dst: array<real>, at0: nat, at1: nat, s: nat, mask: bv16, k: nat,
                       ch: nat -> nat, g0: Cell, g1: Cell, ghost d0: seq<real>)
    requires k <= F && forall l: nat :: LaneOn(mask, l) <==> l < k
    requires from + s + k <= |src| && at0 + s + k <= at1 && at1 + s + k <= dst.Length
    requires Base.TwoRowsWritten(dst[..], d0, src, from, at0, at1, s, ch, g0, g1)
    modifies dst
    ensures Base.TwoRowsWritten(dst[..], d0, src, from, at0, at1, s + k, ch, g0, g1)
  {
    StoreFirst(src, from, dst, at0, at1, s, mask, k, ch, g0, g1, d0);
    StoreSecond(src, from, dst, at0, at1, s, mask, k, ch, g0, g1, d0);
  }

  /** Four full steps of a two-row sweep (one iteration of its `QF` loop). */
  method VectorTwoQuad(src: seq<real>, from: nat, dst: array<real>, at0: nat, at1: nat, s: nat,
                       ch: nat -> nat, g0: Cell, g1: Cell, ghost d0: seq<real>)
    requires from + s + QF <= |src| && at0 + s + QF <= at1 && at1 + s + QF <= dst.Length
    requires Base.TwoRowsWritten(dst[..], d0, src, from, at0, at1, s, ch, g0, g1)
    modifies dst
    ensures Base.TwoRowsWritten(dst[..], d0, src, from, at0, at1, s + QF, ch, g0, g1)
  {
    VectorTwoStep(src, from, dst, at0, at1, s, FullMask, F, ch, g0, g1, d0);
    VectorTwoStep(src, from, dst, at0, at1, s + F, FullMask, F, ch, g0, g1, d0);
    VectorTwoStep(src, from, dst, at0, at1, s + 2 * F, FullMask, F, ch, g0, g1, d0);
    VectorTwoStep(src, from, dst, at0, at1, s + 3 * F, FullMask, F, ch, g0, g1, d0);
  }

  /** The `QF` loop of a two-row sweep; returns `AlignLo(n, QF)`. */
  method VectorTwoQuads(src: seq<real>, from: nat, dst: array<real>, at0: nat, at1: nat, n: nat, ch: nat -> nat, g0: Cell, g1: Cell)
      returns (s: nat)
    requires from + n <= |src| && at0 + n <= at1 && at1 + n <= dst.Length
    modifies dst
    ensures s == AlignLo(n, QF)
    ensures Base.TwoRowsWritten(dst[..], old(dst[..]), src, from, at0, at1, s, ch, g0, g1)
  {
    ghost var d0 := dst[..];
    var aligned := AlignLo(n, QF);
    s := 0;
    while s < aligned
      invariant s <= aligned && s % QF == 0
      invariant Base.TwoRowsWritten(dst[..], d0, src, from, at0, at1, s, ch, g0, g1)
    {
      Base.AlignedStep(s, aligned, QF);
      VectorTwoQuad(src, from, dst, at0, at1, s, ch, g0, g1, d0);
      s := s + QF;
    }
  }

  /** The unmasked part of a two-row sweep: the `QF` loop, then the `F`
      loop; returns `AlignLo(n, F)`. */
  method VectorTwoBody(src: seq<real>, from: nat, dst: array<real>, at0: nat, at1: nat, n: nat, ch: nat -> nat, g0: Cell, g1: Cell)
      returns (s: nat)
    requires from + n <= |src| && at0 + n <= at1 && at1 + n <= dst.Length
    modifies dst
    ensures s == AlignLo(n, F)
    ensures Base.TwoRowsWritten(dst[..], old(dst[..]), src, from, at0, at1, s, ch, g0, g1)
  {
    ghost var d0 := dst[..];
    var partial := AlignLo(n, F);
    SegmentBreakpoints(n);
    s := VectorTwoQuads(src, from, dst, at0, at1, n, ch, g0, g1);
    QuadAligned(s);
    while s < partial
      invariant s <= partial && s % F == 0
      invariant Base.TwoRowsWritten(dst[..], d0, src, from, at0, at1, s, ch, g0, g1)
    {
      Base.AlignedStep(s, partial, F);
      VectorTwoStep(src, from, dst, at0, at1, s, FullMask, F, ch, g0, g1, d0);
      s := s + F;
    }
  }

  /** Two output rows of one buffer from one source row. */
  method VectorTwoRows(src: seq<real>, from: nat, dst: array<real>, at0: nat, at1: nat, n: nat, ch: nat -> nat, g0: Cell, g1: Cell)
    requires from + n <= |src| && at0 + n <= at1 && at1 + n <= dst.Length
    modifies dst
    ensures Base.TwoRowsWritten(dst[..], old(dst[..]), src, from, at0, at1, n, ch, g0, g1)
  {
    ghost var d0 := dst[..];
    var s := VectorTwoBody(src, from, dst, at0, at1, n, ch, g0, g1);
    if s < n {
      var tail := ShiftedMask(F + s - n);
      forall l: nat
        ensures LaneOn(tail, l) <==> l < n - s
      {
        TailMaskOfRow(n, l);
      }
      VectorTwoStep(src, from, dst, at0, at1, s, tail, n - s, ch, g0, g1, d0);
    }
  }

  /** One step storing `g0` into `dst0` and `g1` into `dst1`, at the same
      offset, under one mask. */
  method VectorPairStep(src: seq<real>, from: nat, dst0: array<real>, dst1: array<real>, at: nat, s: nat, mask: bv16, k: nat,
                        ch: nat -> nat, g0: Cell, g1: Cell, ghost a0: seq<real>, ghost a1: seq<real>)
    requires dst0 != dst1 && k <= F && forall l: nat :: LaneOn(mask, l) <==> l < k
    requires from + s + k <= |src| && at + s + k <= dst0.Length && at + s + k <= dst1.Length
    requires Base.RowWritten(dst0[..], a0, src, from, at, s, ch, g0)
    requires Base.RowWritten(dst1[..], a1, src, from, at, s, ch, g1)
    modifies dst0, dst1
    ensures Base.RowWritten(dst0[..], a0, src, from, at, s + k, ch, g0)
    ensures Base.RowWritten(dst1[..], a1, src, from, at, s + k, ch, g1)
  {
    VectorStep(src, from, dst0, at, s, mask, k, ch, g0, a0);
    VectorStep(src, from, dst1, at, s, mask, k, ch, g1, a1);
  }

  /** Four full steps of a two-buffer sweep (one iteration of its `QF` loop). */
  method VectorPairQuad(src: seq<real>, from: nat, dst0: array<real>, dst1: array<real>, at: nat, s: nat,
                        ch: nat -> nat, g0: Cell, g1: Cell, ghost a0: seq<real>, ghost a1: seq<real>)
    requires dst0 != dst1 && from + s + QF <= |src| && at + s + QF <= dst0.Length && at + s + QF <= dst1.Length
    requires Base.RowWritten(dst0[..], a0, src, from, at, s, ch, g0)
    requires Base.RowWritten(dst1[..], a1, src, from, at, s, ch, g1)
    modifies dst0, dst1
    ensures Base.RowWritten(dst0[..], a0, src, from, at, s + QF, ch, g0)
    ensures Base.RowWritten(dst1[..], a1, src, from, at, s + QF, ch, g1)
  {
    VectorPairStep(src, from, dst0, dst1, at, s, FullMask, F, ch, g0, g1, a0, a1);
    VectorPairStep(src, from, dst0, dst1, at, s + F, FullMask, F, ch, g0, g1, a0, a1);
    VectorPairStep(src, from, dst0, dst1, at, s + 2 * F, FullMask, F, ch, g0, g1, a0, a1);
    VectorPairStep(src, from, dst0, dst1, at, s + 3 * F, FullMask, F, ch, g0, g1, a0, a1);
  }

  /** The `QF` loop of a two-buffer sweep; returns `AlignLo(n, QF)`. */
  method VectorPairQuads(src: seq<real>, from: nat, dst0: array<real>, dst1: array<real>, at: nat, n: nat,
                         ch: nat -> nat, g0: Cell, g1: Cell) returns (s: nat)
    requires dst0 != dst1 && from + n <= |src| && at + n <= dst0.Length && at + n <= dst1.Length
    modifies dst0, dst1
    ensures s == AlignLo(n, QF)
    ensures Base.RowWritten(dst0[..], old(dst0[..]), src, from, at, s, ch, g0)
    ensures Base.RowWritten(dst1[..], old(dst1[..]), src, from, at, s, ch, g1)
  {
    ghost var a0, a1 := dst0[..], dst1[..];
    var aligned := AlignLo(n, QF);
    s := 0;
    while s < aligned
      invariant s <= aligned && s % QF == 0
      invariant Base.RowWritten(dst0[..], a0, src, from, at, s, ch, g0)
      invariant Base.RowWritten(dst1[..], a1, src, from, at, s, ch, g1)
    {
      Base.AlignedStep(s, aligned, QF);
      VectorPairQuad(src, from, dst0, dst1, at, s, ch, g0, g1, a0, a1);
      s := s + QF;
    }
  }

  /** The unmasked part of a two-buffer sweep: the `QF` loop, then the `F`
      loop; returns `AlignLo(n, F)`. */
  method VectorPairBody(src: seq<real>, from: nat, dst0: array<real>, dst1: array<real>, at: nat, n: nat,
                        ch: nat -> nat, g0: Cell, g1: Cell) returns (s: nat)
    requires dst0 != dst1 && from + n <= |src| && at + n <= dst0.Length && at + n <= dst1.Length
    modifies dst0, dst1
    ensures s == AlignLo(n, F)
    ensures Base.RowWritten(dst0[..], old(dst0[..]), src, from, at, s, ch, g0)
    ensures Base.RowWritten(dst1[..], old(dst1[..]), src, from, at, s, ch, g1)
  {
    ghost var a0, a1 := dst0[..], dst1[..];
    var partial := AlignLo(n, F);
    SegmentBreakpoints(n);
    s := VectorPairQuads(src, from, dst0, dst1, at, n, ch, g0, g1);
    QuadAligned(s);
    while s < partial
      invariant s <= partial && s % F == 0
      invariant Base.RowWritten(dst0[..], a0, src, from, at, s, ch, g0)
      invariant Base.RowWritten(dst1[..], a1, src, from, at, s, ch, g1)
    {
      Base.AlignedStep(s, partial, F);
      VectorPairStep(src, from, dst0, dst1, at, s, FullMask, F, ch, g0, g1, a0, a1);
      s := s + F;
    }
  }

  /** The same row of two buffers from one source row. */
  method VectorPairRow(src: seq<real>, from: nat, dst0: array<real>, dst1: array<real>, at: nat, n: nat,
                       ch: nat -> nat, g0: Cell, g1: Cell)
    requires dst0 != dst1 && from + n <= |src| && at + n <= dst0.Length && at + n <= dst1.Length
    modifies dst0, dst1
    ensures Base.RowWritten(dst0[..], old(dst0[..]), src, from, at, n, ch, g0)
    ensures Base.RowWritten(dst1[..], old(dst1[..]), src, from, at, n, ch, g1)
  {
    ghost var a0, a1 := dst0[..], dst1[..];
    var s := VectorPairBody(src, from, dst0, dst1, at, n, ch, g0, g1);
    if s < n {
      var tail := ShiftedMask(F + s - n);
      forall l: nat
        ensures LaneOn(tail, l) <==> l < n - s
      {
        TailMaskOfRow(n, l);
      }
      VectorPairStep(src, from, dst0, dst1, at, s, tail, n - s, ch, g0, g1, a0, a1);
    }
  }
}
