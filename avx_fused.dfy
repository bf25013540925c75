/** The AVX-512 two-output fused variants (`Simd::Avx512f`): variant 4
    writes two results of each input into two halves of one buffer, variant
    9 reads two inputs and may also write their concatenation. The position
    and channel loops are those of the reference; each row is an AVX-512
    sweep storing both results in every step. */
module AvxFused {
  import opened Lanes
  import opened Layout
  import opened Formulas
  import opened Reference
  import opened AvxRows
  import Base

  // ---------------------------------------------------------------------
  // Variant 4.

  /** Variant 4 with `scale1[0]` and `bias1[0]` broadcast: the same buffer
      as the reference. */
  method FusedLayerForward4(src: seq<real>, bias0: seq<real>, scale1: seq<real>, bias1: seq<real>, count: nat, size: nat,
                            dst: array<real>, trans: bool)
    requires |src| == count * size && dst.Length == 2 * count * size
    requires |bias0| >= count && |scale1| >= 1 && |bias1| >= 1
    modifies dst
    ensures dst[..] == Fused4(src, bias0, scale1[0], bias1[0], count, size, trans)
  {
    var s1, b1 := scale1[0], bias1[0];
    if (trans || size == 1) && count != 1 {
      Fused4Last(src, bias0, s1, b1, count, size, dst, trans);
    } else {
      Fused4Major(src, bias0, s1, b1, count, size, dst, trans);
    }
  }

  /** Channel-last: `dst0 = dst` and `dst1 = dst + count`, both advancing by
      `2·count` per position. */
  method Fused4Last(src: seq<real>, bias0: seq<real>, s1: real, b1: real, count: nat, size: nat, dst: array<real>, trans: bool)
    requires (trans || size == 1) && count != 1
    requires |src| == count * size && dst.Length == 2 * count * size
    modifies dst
    ensures dst[..] == Fused4(src, bias0, s1, b1, count, size, trans)
  {
    ghost var p := Fused4(src, bias0, s1, b1, count, size, trans);
    Fused4Length(src, bias0, s1, b1, count, size, trans);
    forall j | 0 <= j < size
      ensures Base.Fused4PositionAgrees(p, src, bias0, s1, b1, count, j)
    {
      Base.Fused4RowLast(src, bias0, s1, b1, count, size, trans, j);
      assert j * (2 * count) == 2 * (j * count);
    }
    Fused4LastSweep(src, bias0, s1, b1, count, size, dst, p);
  }

  /** The position loop of `Fused4Last`. */
  method Fused4LastSweep(src: seq<real>, bias0: seq<real>, s1: real, b1: real, count: nat, size: nat,
                         dst: array<real>, ghost p: seq<real>)
    requires |src| == count * size && dst.Length == |p| == 2 * count * size
    requires forall j :: 0 <= j < size ==> Base.Fused4PositionAgrees(p, src, bias0, s1, b1, count, j)
    modifies dst
    ensures dst[..] == p
  {
    var j := 0;
    while j < size
      invariant j <= size && 2 * (j * count) <= |p|
      invariant forall k :: 0 <= k < 2 * (j * count) ==> dst[k] == p[k]
    {
      MulLe(j + 1, size, count);
      Fused4Position(src, bias0, s1, b1, count, dst, j, p);
      j := j + 1;
    }
    assert dst[..] == p;
  }

  /** Position `j`, channel-last: one two-row sweep over `count` channels. */
  method Fused4Position(src: seq<real>, bias0: seq<real>, s1: real, b1: real, count: nat, dst: array<real>, j: nat, ghost p: seq<real>)
    requires dst.Length == |p| && (j + 1) * count <= |src| && 2 * ((j + 1) * count) <= |p|
    requires Base.Fused4PositionAgrees(p, src, bias0, s1, b1, count, j)
    requires forall k :: 0 <= k < 2 * (j * count) ==> dst[k] == p[k]
    modifies dst
    ensures forall k :: 0 <= k < 2 * ((j + 1) * count) ==> dst[k] == p[k]
  {
    var from := j * count;
    assert (j + 1) * count == from + count;
    ghost var d0 := dst[..];
    VectorTwoRows(src, from, dst, 2 * from, 2 * from + count, count, t => t,
                  Fused4FirstCell(bias0), Fused4SecondCell(bias0, s1, b1));
    Base.TwoRowsAppend(dst[..], d0, p, src, from, 2 * from, count, t => t,
                       Fused4FirstCell(bias0), Fused4SecondCell(bias0, s1, b1));
  }

  /** Channel-major: `dst0 = dst` and `dst1 = dst + count·size`, each channel
      a two-row sweep with `bias0[i]` broadcast. */
  method Fused4Major(src: seq<real>, bias0: seq<real>, s1: real, b1: real, count: nat, size: nat, dst: array<real>, trans: bool)
    requires !((trans || size == 1) && count != 1)
    requires |src| == count * size && dst.Length == 2 * count * size
    modifies dst
    ensures dst[..] == Fused4(src, bias0, s1, b1, count, size, trans)
  {
    ghost var p := Fused4(src, bias0, s1, b1, count, size, trans);
    Fused4Length(src, bias0, s1, b1, count, size, trans);
    var i := 0;
    while i < count
      invariant i <= count
      invariant i * size <= count * size
      invariant forall k :: 0 <= k < i * size ==> dst[k] == p[k]
      invariant forall k :: count * size <= k < count * size + i * size ==> dst[k] == p[k]
    {
      Base.Fused4RowMajor(src, bias0, s1, b1, count, size, trans, i);
      Fused4Channel(src, bias0, s1, b1, count, size, dst, i, p);
      i := i + 1;
    }
    assert dst[..] == p;
  }

  /** Channel `i`, channel-major: its row of both halves. */
  method Fused4Channel(src: seq<real>, bias0: seq<real>, s1: real, b1: real, count: nat, size: nat, dst: array<real>, i: nat, ghost p: seq<real>)
    requires dst.Length == |p| && i * size + size <= count * size && |src| == count * size
    requires Base.RowsAgree(p, src, i * size, i * size, count * size + i * size, size, t => i,
                            Fused4FirstCell(bias0), Fused4SecondCell(bias0, s1, b1))
    requires forall k :: 0 <= k < i * size ==> dst[k] == p[k]
    requires forall k :: count * size <= k < count * size + i * size ==> dst[k] == p[k]
    modifies dst
    ensures forall k :: 0 <= k < (i + 1) * size ==> dst[k] == p[k]
    ensures forall k :: count * size <= k < count * size + (i + 1) * size ==> dst[k] == p[k]
  {
    assert (i + 1) * size == i * size + size;
    ghost var d0 := dst[..];
    VectorTwoRows(src, i * size, dst, i * size, count * size + i * size, size, t => i,
                  Fused4FirstCell(bias0), Fused4SecondCell(bias0, s1, b1));
    Base.TwoRowsAppendApart(dst[..], d0, p, src, i * size, i * size, count * size, count * size + i * size, size, t => i,
                            Fused4FirstCell(bias0), Fused4SecondCell(bias0, s1, b1));
  }

  // ---------------------------------------------------------------------
  // Variant 9.

  /** One row of variant 9: with a second output each step stores both the
      result and the loaded input, otherwise only the result. */
  method Fused9Row(src: seq<real>, from: nat, dst0: array<real>, dst1: array?<real>, at: nat, n: nat, ch: nat -> nat,
                   scale: seq<real>, bias: seq<real>)
    requires from + n <= |src| && at + n <= dst0.Length
    requires dst1 != null ==> dst1 != dst0 && at + n <= dst1.Length
    modifies dst0, dst1
    ensures Base.RowWritten(dst0[..], old(dst0[..]), src, from, at, n, ch, Fused9Cell(scale, bias))
    ensures dst1 != null ==> Base.RowWritten(dst1[..], old(dst1[..]), src, from, at, n, ch, Base.Copy())
  {
    if dst1 != null {
      VectorPairRow(src, from, dst0, dst1, at, n, ch, Fused9Cell(scale, bias), Base.Copy());
    } else {
      VectorRow(src, from, dst0, at, n, ch, Fused9Cell(scale, bias));
    }
  }

  /** A row of variant 9 after a prefix that agrees with both outputs extends
      the prefix of both. */
  method Fused9Step(src: seq<real>, from: nat, dst0: array<real>, dst1: array?<real>, at: nat, n: nat, ch: nat -> nat,
                    scale: seq<real>, bias: seq<real>, ghost out: seq<real>, ghost cat: seq<real>)
    requires from + n <= |src| && |out| == dst0.Length
    requires dst1 != null ==> dst1 != dst0 && |cat| == dst1.Length
    requires Base.RowAgrees(out, src, from, at, n, ch, Fused9Cell(scale, bias))
    requires dst1 != null ==> Base.RowAgrees(cat, src, from, at, n, ch, Base.Copy())
    requires forall k :: 0 <= k < at ==> dst0[k] == out[k]
    requires dst1 != null ==> forall k :: 0 <= k < at ==> dst1[k] == cat[k]
    modifies dst0, dst1
    ensures forall k :: 0 <= k < at + n ==> dst0[k] == out[k]
    ensures dst1 != null ==> forall k :: 0 <= k < at + n ==> dst1[k] == cat[k]
  {
    ghost var a0 := dst0[..];
    ghost var a1 := if dst1 != null then dst1[..] else [];
    Fused9Row(src, from, dst0, dst1, at, n, ch, scale, bias);
    Base.RowAppend(dst0[..], a0, out, src, from, at, n, ch, Fused9Cell(scale, bias));
    if dst1 != null {
      Base.RowAppend(dst1[..], a1, cat, src, from, at, n, ch, Base.Copy());
    }
  }

  /** Variant 9 with `scale1 = scale0 + count0` and `bias1 = bias0 + count0`:
      the same outputs as the reference. */
  method FusedLayerForward9(src0: seq<real>, src1: seq<real>, scale0: seq<real>, bias0: seq<real>,
                            count0: nat, count1: nat, size: nat, dst0: array<real>, dst1: array?<real>, trans: bool)
    requires |src0| == count0 * size && |src1| == count1 * size
    requires |scale0| >= count0 + count1 && |bias0| >= count0 + count1
    requires dst0.Length == (count0 + count1) * size
    requires dst1 != null ==> dst1 != dst0 && dst1.Length == (count0 + count1) * size
    modifies dst0, dst1
    ensures dst0[..] == Fused9Output(src0, src1, scale0, bias0, count0, count1, size, trans)
    ensures dst1 != null ==> dst1[..] == Concat(src0, src1, count0, count1, size, trans)
  {
    if trans || size == 1 {
      Fused9Last(src0, src1, scale0, bias0, count0, count1, size, dst0, dst1, trans);
    } else {
      Fused9Major(src0, src1, scale0, bias0, count0, count1, size, dst0, dst1, trans);
    }
  }

  /** Channel-last: per position a sweep over the `count0` channels of `src0`,
      then one over the `count1` channels of `src1`. */
  method Fused9Last(src0: seq<real>, src1: seq<real>, scale: seq<real>, bias: seq<real>,
                    count0: nat, count1: nat, size: nat, dst0: array<real>, dst1: array?<real>, trans: bool)
    requires trans || size == 1
    requires |src0| == count0 * size && |src1| == count1 * size
    requires dst0.Length == (count0 + count1) * size
    requires dst1 != null ==> dst1 != dst0 && dst1.Length == (count0 + count1) * size
    modifies dst0, dst1
    ensures dst0[..] == Fused9Output(src0, src1, scale, bias, count0, count1, size, trans)
    ensures dst1 != null ==> dst1[..] == Concat(src0, src1, count0, count1, size, trans)
  {
    ghost var cat := Concat(src0, src1, count0, count1, size, trans);
    ghost var out := Fused9Output(src0, src1, scale, bias, count0, count1, size, trans);
    ConcatLength(src0, src1, count0, count1, size, trans);
    forall j | 0 <= j < size
      ensures Base.PositionAgrees(out, cat, src0, src1, scale, bias, count0, count1, j)
      ensures j * count0 + count0 <= |src0| && j * count1 + count1 <= |src1|
    {
      Base.Fused9FirstRowLast(src0, src1, scale, bias, count0, count1, size, trans, j);
      Base.Fused9SecondRowLast(src0, src1, scale, bias, count0, count1, size, trans, j);
      Base.Fused9SecondRowLastCopy(src0, src1, scale, bias, count0, count1, size, trans, j);
    }
    Fused9LastSweep(src0, src1, scale, bias, count0, count1, size, dst0, dst1, out, cat);
  }

  /** The position loop of `Fused9Last`. */
  method Fused9LastSweep(src0: seq<real>, src1: seq<real>, scale: seq<real>, bias: seq<real>,
                         count0: nat, count1: nat, size: nat, dst0: array<real>, dst1: array?<real>,
                         ghost out: seq<real>, ghost cat: seq<real>)
    requires |out| == |cat| == dst0.Length == (count0 + count1) * size
    requires dst1 != null ==> dst1 != dst0 && dst1.Length == |cat|
    requires forall j :: 0 <= j < size ==>
      Base.PositionAgrees(out, cat, src0, src1, scale, bias, count0, count1, j) &&
      j * count0 + count0 <= |src0| && j * count1 + count1 <= |src1|
    modifies dst0, dst1
    ensures dst0[..] == out
    ensures dst1 != null ==> dst1[..] == cat
  {
    var j := 0;
    while j < size
      invariant j <= size && j * (count0 + count1) <= |out|
      invariant forall k :: 0 <= k < j * (count0 + count1) ==> dst0[k] == out[k]
      invariant dst1 != null ==> forall k :: 0 <= k < j * (count0 + count1) ==> dst1[k] == cat[k]
    {
      MulLe(j + 1, size, count0 + count1);
      Fused9Position(src0, src1, scale, bias, count0, count1, dst0, dst1, j, out, cat);
      j := j + 1;
    }
    assert dst0[..] == out;
    assert dst1 != null ==> dst1[..] == cat;
  }

  /** Position `j`, channel-last: the `src0` row, then the `src1` row, whose
      parameters start at `count0`. */
  method Fused9Position(src0: seq<real>, src1: seq<real>, scale: seq<real>, bias: seq<real>,
                        count0: nat, count1: nat, dst0: array<real>, dst1: array?<real>, j: nat,
                        ghost out: seq<real>, ghost cat: seq<real>)
    requires |out| == |cat| == dst0.Length && (j + 1) * (count0 + count1) <= |out|
    requires dst1 != null ==> dst1 != dst0 && dst1.Length == |cat|
    requires Base.PositionAgrees(out, cat, src0, src1, scale, bias, count0, count1, j)
    requires j * count0 + count0 <= |src0| && j * count1 + count1 <= |src1|
    requires forall k :: 0 <= k < j * (count0 + count1) ==> dst0[k] == out[k]
    requires dst1 != null ==> forall k :: 0 <= k < j * (count0 + count1) ==> dst1[k] == cat[k]
    modifies dst0, dst1
    ensures forall k :: 0 <= k < (j + 1) * (count0 + count1) ==> dst0[k] == out[k]
    ensures dst1 != null ==> forall k :: 0 <= k < (j + 1) * (count0 + count1) ==> dst1[k] == cat[k]
  {
    var at := j * (count0 + count1);
    assert (j + 1) * (count0 + count1) == at + count0 + count1;
    Fused9Step(src0, j * count0, dst0, dst1, at, count0, t => t, scale, bias, out, cat);
    Fused9Step(src1, j * count1, dst0, dst1, at + count0, count1, t => count0 + t, scale, bias, out, cat);
  }

  /** Channel-major: the rows of `src0` with `scale0[i]`, `bias0[i]`
      broadcast, then the rows of `src1` with `scale1[i]`, `bias1[i]`. */
  method Fused9Major(src0: seq<real>, src1: seq<real>, scale: seq<real>, bias: seq<real>,
                     count0: nat, count1: nat, size: nat, dst0: array<real>, dst1: array?<real>, trans: bool)
    requires !(trans || size == 1)
    requires |src0| == count0 * size && |src1| == count1 * size
    requires dst0.Length == (count0 + count1) * size
    requires dst1 != null ==> dst1 != dst0 && dst1.Length == (count0 + count1) * size
    modifies dst0, dst1
    ensures dst0[..] == Fused9Output(src0, src1, scale, bias, count0, count1, size, trans)
    ensures dst1 != null ==> dst1[..] == Concat(src0, src1, count0, count1, size, trans)
  {
    ghost var cat := Concat(src0, src1, count0, count1, size, trans);
    ghost var out := Fused9Output(src0, src1, scale, bias, count0, count1, size, trans);
    ConcatLength(src0, src1, count0, count1, size, trans);
    var i := 0;
    while i < count0
      invariant i <= count0 && i * size <= count0 * size
      invariant forall k :: 0 <= k < i * size ==> dst0[k] == out[k]
      invariant dst1 != null ==> forall k :: 0 <= k < i * size ==> dst1[k] == cat[k]
    {
      Base.Fused9FirstRowMajor(src0, src1, scale, bias, count0, count1, size, trans, i);
      Fused9Step(src0, i * size, dst0, dst1, i * size, size, t => i, scale, bias, out, cat);
      assert (i + 1) * size == i * size + size;
      i := i + 1;
    }
    i := 0;
    while i < count1
      invariant i <= count1 && i * size <= count1 * size
      invariant forall k :: 0 <= k < count0 * size + i * size ==> dst0[k] == out[k]
      invariant dst1 != null ==> forall k :: 0 <= k < count0 * size + i * size ==> dst1[k] == cat[k]
    {
      Base.Fused9SecondRowMajor(src0, src1, scale, bias, count0, count1, size, trans, i);
      Fused9Step(src1, i * size, dst0, dst1, count0 * size + i * size, size, t => count0 + i, scale, bias, out, cat);
      assert (i + 1) * size == i * size + size;
      i := i + 1;
    }
    assert dst0[..] == out;
    assert dst1 != null ==> dst1[..] == cat;
  }
}
