/** The AVX-512 eltwise kernel (`Simd::Avx512f`): the first two sources
    combined into `dst`, then each further source combined into `dst`, every
    pass an AVX-512 sweep over `size` cells. */
module AvxEltwise {
  import opened Lanes
  import opened Reference
  import opened AvxRows
  import Base

  /** Product, max or min: the lane-wise `mul`, `max` or `min` of two
      registers, folded over the sources. */
  method EltwiseLayerForwardFold(src: seq<seq<real>>, count: nat, size: nat, op: EltwiseOperation, dst: array<real>)
    requires op != Sum
    requires count >= 2 && Base.SourcesCover(src, count, size) && dst.Length == size
    modifies dst
    ensures forall j :: 0 <= j < size ==> dst[j] == Fold(op, src, count, j)
  {
    VectorRow(src[0], 0, dst, 0, size, t => t, (x: real, k: nat, c: nat) => Combine(op, x, Source(src, 1, k)));
    var i := 2;
    while i < count
      invariant 2 <= i <= count
      invariant forall j :: 0 <= j < size ==> dst[j] == Fold(op, src, i, j)
    {
      var acc := dst[..];
      VectorRow(acc, 0, dst, 0, size, t => t, (x: real, k: nat, c: nat) => Combine(op, x, Source(src, i, k)));
      i := i + 1;
    }
  }

  /** The weighted sum: `src0·w0 + src1·w1` in the first pass, then
      `dst += srci·wi` with `weight[i]` broadcast. */
  method EltwiseLayerForwardSum(src: seq<seq<real>>, weight: seq<real>, count: nat, size: nat, dst: array<real>)
    requires count >= 2 && Base.SourcesCover(src, count, size) && |weight| >= count && dst.Length == size
    modifies dst
    ensures forall j :: 0 <= j < size ==> dst[j] == WeightedSum(src, weight, count, j)
  {
    var weight0, weight1 := weight[0], weight[1];
    VectorRow(src[0], 0, dst, 0, size, t => t, (x: real, k: nat, c: nat) => x * weight0 + Source(src, 1, k) * weight1);
    forall j | 0 <= j < size
      ensures dst[j] == WeightedSum(src, weight, 2, j)
    {
      assert WeightedSum(src, weight, 1, j) == Source(src, 0, j) * weight0;
    }
    var i := 2;
    while i < count
      invariant 2 <= i <= count
      invariant forall j :: 0 <= j < size ==> dst[j] == WeightedSum(src, weight, i, j)
    {
      var acc := dst[..];
      var weighti := weight[i];
      VectorRow(acc, 0, dst, 0, size, t => t, (x: real, k: nat, c: nat) => x + Source(src, i, k) * weighti);
      i := i + 1;
    }
  }

  /** The dispatcher on the operation: the same output as the reference. */
  method EltwiseLayerForward(src: seq<seq<real>>, weight: seq<real>, count: nat, size: nat, op: EltwiseOperation, dst: array<real>)
    requires count >= 2 && Base.SourcesCover(src, count, size) && dst.Length == size
    requires op == Sum ==> |weight| >= count
    modifies dst
    ensures dst[..] == Eltwise(op, src, weight, count, size)
  {
    if op == Sum {
      EltwiseLayerForwardSum(src, weight, count, size, dst);
    } else {
      EltwiseLayerForwardFold(src, count, size, op, dst);
    }
  }
}
