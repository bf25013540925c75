/** The AVX-512 cross-channel local response normalization
    (`Simd::Avx512f::SynetLrnLayerCrossChannels`).

    Channel-last (`trans`) with `half == 2` and `count >= F + 2` takes a fast
    path: every position's row of `count` channels is written by whole
    registers whose lanes add the squares of five neighbouring channels read
    by five shifted loads, with masks that zero the lanes whose neighbour lies
    before the row (`NoseSquareSum`) or after it (`TailSquareSum`). The stores
    are at 0, at `F, 2F, ..` below `aligned = AlignLo(count - 2, F)`, at
    `count - 2 - F` when `aligned` falls short of `count - 2`, and at
    `count - F`. For `count == 19` the store at `count - 2 - F == 1` reads one
    channel before the row (`ExtraStoreAsWritten`); the path proved here
    takes that store only when it starts at channel 2 or later.

    Channel-major rows keep one running window sum per position in a buffer,
    swept in registers of 16 positions with a masked last step. */
module AvxLrn {
  import opened Lanes
  import opened Layout
  import opened Reference
  import Base

  // ---------------------------------------------------------------------
  // The square sums of the channel-last fast path.

  /** `0xFFFC` and `0xFFFE` switch off the lanes whose loads at `src - 2` and
      `src - 1` would start before the row; `0x7FFF` and `0x3FFF` are the
      shifted masks that switch off the lanes past it. */
  lemma EdgeMasks()
    ensures forall l: nat :: LaneOn(0xFFFC, l) <==> 2 <= l < F
    ensures forall l: nat :: LaneOn(0xFFFE, l) <==> 1 <= l < F
    ensures forall l: nat :: LaneOn(0x7FFF, l) <==> l < F - 1
    ensures forall l: nat :: LaneOn(0x3FFF, l) <==> l < F - 2
    ensures forall l: nat :: LaneOn(FullMask, l) <==> l < F
  {
    forall l: nat
      ensures LaneOn(0x7FFF, l) <==> l < F - 1
      ensures LaneOn(0x3FFF, l) <==> l < F - 2
    {
      ShiftedMaskLanes(1, l);
      ShiftedMaskLanes(2, l);
    }
  }

  /** Five loads at `p - 2 .. p + 2`, masked by `m0, m1, FullMask, m3, m4`,
      squared and added lane by lane as `(s0² + s1²) + (s2² + (s3² + s4²))`. */
  function FiveSquares(src: seq<real>, p: nat, m0: bv16, m1: bv16, m3: bv16, m4: bv16): (r: seq<real>)
    requires p + F <= |src|
    requires forall l: nat :: LaneOn(m0, l) ==> 0 <= p - 2 + l < |src|
    requires forall l: nat :: LaneOn(m1, l) ==> 0 <= p - 1 + l < |src|
    requires forall l: nat :: LaneOn(m3, l) ==> p + 1 + l < |src|
    requires forall l: nat :: LaneOn(m4, l) ==> p + 2 + l < |src|
    ensures |r| == F
  {
    var s0, s1, s2 := MaskzLoadU(m0, src, p - 2), MaskzLoadU(m1, src, p - 1), LoadU(src, p);
    var s3, s4 := MaskzLoadU(m3, src, p + 1), MaskzLoadU(m4, src, p + 2);
    seq(F, l requires 0 <= l < F => (Square(s0[l]) + Square(s1[l])) + (Square(s2[l]) + (Square(s3[l]) + Square(s4[l]))))
  }

  /** `NoseSquareSum(src + p)`: the first register of a row. */
  function NoseSquareSum(src: seq<real>, p: nat): (r: seq<real>)
    requires p + F + 2 <= |src|
    ensures |r| == F
  {
    EdgeMasks();
    FiveSquares(src, p, 0xFFFC, 0xFFFE, FullMask, FullMask)
  }

  /** `BodySquareSum(src + p)`: five unmasked loads. */
  function BodySquareSum(src: seq<real>, p: nat): (r: seq<real>)
    requires 2 <= p && p + F + 2 <= |src|
    ensures |r| == F
  {
    EdgeMasks();
    FiveSquares(src, p, FullMask, FullMask, FullMask, FullMask)
  }

  /** `TailSquareSum(src + p)`: the last register of a row. */
  function TailSquareSum(src: seq<real>, p: nat): (r: seq<real>)
    requires 2 <= p && p + F <= |src|
    ensures |r| == F
  {
    EdgeMasks();
    FiveSquares(src, p, FullMask, FullMask, 0x7FFF, 0x3FFF)
  }

  /** The square of channel `c` of the row at `off`, zero for a channel
      outside the row's `count` channels. */
  function Term(src: seq<real>, off: nat, count: nat, c: int): real
  {
    if 0 <= c < count then Square(At(src, off + c)) else 0.0
  }

  /** Cell `x` squared when it is below `hi`. */
  function Below(src: seq<real>, off: nat, hi: nat, x: nat): real
  {
    if x < hi then Square(At(src, off + x)) else 0.0
  }

  /** A square sum over at most five consecutive channels, term by term. */
  lemma {:induction false} SquareSumFive(src: seq<real>, off: nat, lo: nat, hi: nat)
    requires lo <= hi <= lo + 5
    ensures SquareSum(src, off, 1, lo, hi)
         == Below(src, off, hi, lo) + Below(src, off, hi, lo + 1) + Below(src, off, hi, lo + 2)
          + Below(src, off, hi, lo + 3) + Below(src, off, hi, lo + 4)
    decreases hi
  {
    if lo < hi {
      SquareSumFive(src, off, lo, hi - 1);
    }
  }

  /** With `half == 2` the window of channel `c` is the five terms around it. */
  lemma WindowTerms(src: seq<real>, off: nat, count: nat, c: nat)
    requires c < count
    ensures Window(src, 2, count, off, 1, c)
         == Term(src, off, count, c - 2) + Term(src, off, count, c - 1) + Term(src, off, count, c)
          + Term(src, off, count, c + 1) + Term(src, off, count, c + 2)
  {
    SquareSumFive(src, off, WindowLo(2, c), WindowHi(2, count, c));
  }

  /** Lane `l` of the first register is the window of channel `l`. */
  lemma NoseWindows(src: seq<real>, off: nat, count: nat)
    requires count >= F + 2 && off + count <= |src|
    ensures forall l :: 0 <= l < F ==> NoseSquareSum(src, off)[l] == Window(src, 2, count, off, 1, l)
  {
    EdgeMasks();
    forall l | 0 <= l < F
      ensures NoseSquareSum(src, off)[l] == Window(src, 2, count, off, 1, l)
    {
      WindowTerms(src, off, count, l);
    }
  }

  /** Lane `l` of a body register at channel `i >= 2` is the window of
      channel `i + l` when the register's loads end inside the row. */
  lemma BodyWindows(src: seq<real>, off: nat, count: nat, i: nat)
    requires 2 <= i && i + F + 2 <= count && off + count <= |src|
    ensures var r := BodySquareSum(src, off + i);
            forall l :: 0 <= l < F ==> r[l] == Window(src, 2, count, off, 1, i + l)
  {
    EdgeMasks();
    var r := BodySquareSum(src, off + i);
    forall l | 0 <= l < F
      ensures r[l] == Window(src, 2, count, off, 1, i + l)
    {
      WindowTerms(src, off, count, i + l);
    }
  }

  /** Lane `l` of the last register, at `count - F`, is the window of channel
      `count - F + l`. */
  lemma TailWindows(src: seq<real>, off: nat, count: nat)
    requires count >= F + 2 && off + count <= |src|
    ensures var r := TailSquareSum(src, off + count - F);
            forall l :: 0 <= l < F ==> r[l] == Window(src, 2, count, off, 1, count - F + l)
  {
    EdgeMasks();
    var r := TailSquareSum(src, off + count - F);
    forall l | 0 <= l < F
      ensures r[l] == Window(src, 2, count, off, 1, count - F + l)
    {
      WindowTerms(src, off, count, count - F + l);
    }
  }

  // ---------------------------------------------------------------------
  // The stores of the channel-last fast path.

  /** Whether the kernel as written adds the store at `count - half - F`:
      whenever `aligned` falls short of `count - half`. */
  predicate ExtraStoreAsWritten(count: nat, half: nat)
    requires half <= count
  {
    AlignLo(count - half, F) != count - half
  }

  /** The same store taken only when its loads start inside the row; for
      `count < F + 2·half` the last store already covers what it would. */
  predicate ExtraStore(count: nat, half: nat)
    requires half <= count
  {
    ExtraStoreAsWritten(count, half) && count - half - F >= half
  }

  /** With `count == 19` the kernel as written stores the body register at
      channel 1, whose lane 0 adds the square of the cell just before the
      row to the window of channel 1: the previous position's last channel
      (before the tensor for the first position). */
  lemma ExtraStoreReadsBeforeRow(src: seq<real>, off: nat)
    requires 1 <= off && off + 19 <= |src|
    ensures ExtraStoreAsWritten(19, 2) && !ExtraStore(19, 2) && 19 - 2 - F == 1
    ensures BodySquareSum(src, off + 1)[0] == Square(src[off - 1]) + Window(src, 2, 19, off, 1, 1)
  {
    assert AlignLo(17, F) == 16;
    EdgeMasks();
    WindowTerms(src, off, 19, 1);
  }

  /** The first `n` channels of the row at `off` hold the normalization of
      their windows; every other cell of `d` is as in `d0`. */
  ghost predicate StoredRow(d: seq<real>, d0: seq<real>, src: seq<real>, off: nat, count: nat, n: nat,
                            k0: real, k1: real, k2: real, pow: (real, real) -> real)
  {
    |d| == |d0| &&
    forall e :: 0 <= e < |d| ==>
      d[e] == if off <= e < off + n then Normalize(At(src, e), Window(src, 2, count, off, 1, e - off), k0, k1, k2, pow) else d0[e]
  }

  /** One store: `dst[p..p+F) = src[p..p+F) · pow(k0 + k1·sums, k2)` with lane
      `l` of `sums` the window of channel `p + l`; starting within the
      stored prefix, it extends it. */
  method Store(src: seq<real>, off: nat, count: nat, p: nat, sums: seq<real>,
               k0: real, k1: real, k2: real, pow: (real, real) -> real, dst: array<real>, n: nat, ghost d0: seq<real>)
    requires |sums| == F && p <= n <= count && p + F <= count
    requires off + count <= |src| && off + count <= dst.Length
    requires forall l :: 0 <= l < F ==> sums[l] == Window(src, 2, count, off, 1, p + l)
    requires StoredRow(dst[..], d0, src, off, count, n, k0, k1, k2, pow)
    modifies dst
    ensures StoredRow(dst[..], d0, src, off, count, if n < p + F then p + F else n, k0, k1, k2, pow)
  {
    var x := LoadU(src, off + p);
    var v := seq(F, l requires 0 <= l < F => Normalize(x[l], sums[l], k0, k1, k2, pow));
    ghost var before := dst[..];
    StoreU(dst, off + p, v);
    StoreCells(dst[..], d0, before, x, sums, v, src, off, count, p, n, k0, k1, k2, pow);
  }

  /** What a store of `v`, the register `x` normalized by the windows `sums`
      at `p`, does to a stored prefix. */
  lemma StoreCells(d: seq<real>, d0: seq<real>, before: seq<real>, x: seq<real>, sums: seq<real>, v: seq<real>,
                   src: seq<real>, off: nat, count: nat, p: nat, n: nat,
                   k0: real, k1: real, k2: real, pow: (real, real) -> real)
    requires |x| == |sums| == F && p <= n && off + p + F <= |src|
    requires x == LoadU(src, off + p)
    requires forall l :: 0 <= l < F ==> sums[l] == Window(src, 2, count, off, 1, p + l)
    requires v == seq(F, l requires 0 <= l < F => Normalize(x[l], sums[l], k0, k1, k2, pow))
    requires StoredRow(before, d0, src, off, count, n, k0, k1, k2, pow)
    requires off + p + F <= |before| && d == before[..off + p] + v + before[off + p + F..]
    ensures StoredRow(d, d0, src, off, count, if n < p + F then p + F else n, k0, k1, k2, pow)
  {
    assert v[..F] == v;
    Splice(d, before, v, off + p, F);
    forall e | 0 <= e < |d| && off + p <= e < off + p + F
      ensures d[e] == Normalize(At(src, e), Window(src, 2, count, off, 1, e - off), k0, k1, k2, pow)
    {
      var l := e - (off + p);
      assert x[l] == src[e] && sums[l] == Window(src, 2, count, off, 1, p + l);
    }
  }

  /** One position of the fast path: the row at `off` is normalized and no
      other cell changes. */
  method LastRowFast(src: seq<real>, count: nat, k0: real, k1: real, k2: real, pow: (real, real) -> real,
                     dst: array<real>, off: nat)
    requires count >= F + 2 && off + count <= |src| && off + count <= dst.Length
    modifies dst
    ensures StoredRow(dst[..], old(dst[..]), src, off, count, count, k0, k1, k2, pow)
  {
    ghost var d0 := dst[..];
    var aligned := AlignLo(count - 2, F);
    LastRowBody(src, count, k0, k1, k2, pow, dst, off, aligned);
    var n := aligned;
    if ExtraStore(count, 2) {
      BodyStore(src, off, count, count - 2 - F, k0, k1, k2, pow, dst, n, d0);
      n := count - 2;
    } else if aligned != count - 2 {
      assert count - 2 - F < 2;
    }
    TailStore(src, off, count, k0, k1, k2, pow, dst, n, d0);
  }

  /** A body register at `i`: the square sums of `BodySquareSum`, normalized and stored. */
  method BodyStore(src: seq<real>, off: nat, count: nat, i: nat, k0: real, k1: real, k2: real, pow: (real, real) -> real,
                   dst: array<real>, n: nat, ghost d0: seq<real>)
    requires 2 <= i <= n <= count && i + F + 2 <= count && off + count <= |src| && off + count <= dst.Length
    requires StoredRow(dst[..], d0, src, off, count, n, k0, k1, k2, pow)
    modifies dst
    ensures StoredRow(dst[..], d0, src, off, count, if n < i + F then i + F else n, k0, k1, k2, pow)
  {
    BodyWindows(src, off, count, i);
    Store(src, off, count, i, BodySquareSum(src, off + i), k0, k1, k2, pow, dst, n, d0);
  }

  /** The last register of a row, ending at `count`, stored by `TailSquareSum`. */
  method TailStore(src: seq<real>, off: nat, count: nat, k0: real, k1: real, k2: real, pow: (real, real) -> real,
                   dst: array<real>, n: nat, ghost d0: seq<real>)
    requires count >= F + 2 && count - F <= n <= count && off + count <= |src| && off + count <= dst.Length
    requires StoredRow(dst[..], d0, src, off, count, n, k0, k1, k2, pow)
    modifies dst
    ensures StoredRow(dst[..], d0, src, off, count, count, k0, k1, k2, pow)
  {
    TailWindows(src, off, count);
    Store(src, off, count, count - F, TailSquareSum(src, off + count - F), k0, k1, k2, pow, dst, n, d0);
  }

  /** The first register of a row and the body registers below `aligned`. */
  method LastRowBody(src: seq<real>, count: nat, k0: real, k1: real, k2: real, pow: (real, real) -> real,
                     dst: array<real>, off: nat, aligned: nat)
    requires count >= F + 2 && off + count <= |src| && off + count <= dst.Length
    requires aligned == AlignLo(count - 2, F)
    modifies dst
    ensures F <= aligned
    ensures StoredRow(dst[..], old(dst[..]), src, off, count, aligned, k0, k1, k2, pow)
  {
    ghost var d0 := dst[..];
    assert F <= aligned;
    NoseWindows(src, off, count);
    Store(src, off, count, 0, NoseSquareSum(src, off), k0, k1, k2, pow, dst, 0, d0);
    var i := F;
    while i < aligned
      invariant F <= i <= aligned && i % F == 0
      invariant StoredRow(dst[..], d0, src, off, count, i, k0, k1, k2, pow)
    {
      Base.AlignedStep(i, aligned, F);
      BodyStore(src, off, count, i, k0, k1, k2, pow, dst, i, d0);
      i := i + F;
    }
  }

  /** A row written by the fast path leaves the rows before it alone and
      holds the channel-last normalization of its position. */
  lemma StoredRowDone(d: seq<real>, d0: seq<real>, src: seq<real>, count: nat, off: nat,
                      k0: real, k1: real, k2: real, pow: (real, real) -> real)
    requires StoredRow(d, d0, src, off, count, count, k0, k1, k2, pow) && off <= |d|
    ensures d[..off] == d0[..off]
    ensures Base.LastRowDone(d, src, 2, count, k0, k1, k2, pow, off, count)
  {
    assert d[..off] == d0[..off];
  }

  // ---------------------------------------------------------------------
  // The channel-major sweep.

  /** The registers of one warm-up step: `sum + pos²` over the lanes of
      `mask`, `pos` being channel `i` at positions `j ..`. */
  function WarmRegister(src: seq<real>, sums: seq<real>, size: nat, i: nat, j: nat, mask: bv16, n: nat): (r: seq<real>)
    requires LowLanes(mask, n) && j + n <= size == |sums| && (i + 1) * size <= |src|
    ensures |r| == F
  {
    assert i * size + size == (i + 1) * size;
    var pos, sum := MaskzLoadU(mask, src, i * size + j), MaskzLoadU(mask, sums, j);
    seq(F, l requires 0 <= l < F => Square(pos[l]) + sum[l])
  }

  /** Positions `from .. to-1` of `s` hold the squares of the first `i`
      channels. */
  ghost predicate Warmed(s: seq<real>, src: seq<real>, size: nat, i: nat, from: nat, to: nat)
  {
    forall t :: from <= t < to && t < |s| ==> s[t] == SquareSum(src, t, size, 0, i)
  }

  /** Lane `l` of a warm-up register takes channel `i` into position `j + l`. */
  lemma WarmLanes(src: seq<real>, sums: seq<real>, size: nat, i: nat, j: nat, mask: bv16, n: nat)
    requires LowLanes(mask, n) && j + n <= size == |sums| && (i + 1) * size <= |src|
    requires Warmed(sums, src, size, i, j, j + n)
    ensures var r := WarmRegister(src, sums, size, i, j, mask, n);
            forall l :: 0 <= l < n ==> r[l] == SquareSum(src, j + l, size, 0, i + 1)
  {
    var r := WarmRegister(src, sums, size, i, j, mask, n);
    forall l | 0 <= l < n
      ensures r[l] == SquareSum(src, j + l, size, 0, i + 1)
    {
      assert src[i * size + j + l] == At(src, j + l + i * size);
    }
  }

  /** Storing such a register moves the warmed boundary from `j` to `j + n`. */
  lemma WarmCells(before: seq<real>, after: seq<real>, r: seq<real>, src: seq<real>, size: nat, i: nat, j: nat, n: nat)
    requires |r| == F && n <= F && j + n <= size == |before|
    requires after == before[..j] + r[..n] + before[j + n..]
    requires forall l :: 0 <= l < n ==> r[l] == SquareSum(src, j + l, size, 0, i + 1)
    requires Warmed(before, src, size, i + 1, 0, j) && Warmed(before, src, size, i, j + n, size)
    ensures Warmed(after, src, size, i + 1, 0, j + n) && Warmed(after, src, size, i, j + n, size)
  {
    Splice(after, before, r, j, n);
  }

  /** One warm-up step: positions `j .. j+n-1` of the sums take channel `i`
      in. */
  method WarmStep(src: seq<real>, count: nat, size: nat, sum: array<real>, i: nat, j: nat, mask: bv16, n: nat)
    requires |src| == count * size && sum.Length == size && i < count
    requires LowLanes(mask, n) && j + n <= size
    requires Warmed(sum[..], src, size, i + 1, 0, j) && Warmed(sum[..], src, size, i, j, size)
    modifies sum
    ensures Warmed(sum[..], src, size, i + 1, 0, j + n) && Warmed(sum[..], src, size, i, j + n, size)
  {
    MulLe(i + 1, count, size);
    ghost var before := sum[..];
    var r := WarmRegister(src, sum[..], size, i, j, mask, n);
    WarmLanes(src, before, size, i, j, mask, n);
    StoreMasked(sum, j, r, mask, n);
    WarmCells(before, sum[..], r, src, size, i, j, n);
  }

  /** `sum[t] = Σ_{c<half} src[c·size+t]²`: the window of channel `-1`,
      summed a register at a time. */
  method WarmUp(src: seq<real>, half: nat, count: nat, size: nat, sum: array<real>)
    requires |src| == count * size && sum.Length == size && half <= count
    requires forall t :: 0 <= t < size ==> sum[t] == 0.0
    modifies sum
    ensures Base.SumsAre(sum[..], src, half, count, size, -1, 0, size)
  {
    var aligned := AlignLo(size, F);
    var tail := TailMask16(size - aligned);
    forall l: nat
      ensures LaneOn(FullMask, l) <==> l < F
      ensures LaneOn(tail, l) <==> l < size - aligned
    {
      FullMaskLanes(l);
      ShiftedMaskLanes(16 - (size - aligned), l);
    }
    var i := 0;
    while i < half
      invariant i <= half
      invariant Warmed(sum[..], src, size, i, 0, size)
    {
      var j := 0;
      while j < aligned
        invariant j <= aligned && j % F == 0
        invariant Warmed(sum[..], src, size, i + 1, 0, j) && Warmed(sum[..], src, size, i, j, size)
      {
        Base.AlignedStep(j, aligned, F);
        WarmStep(src, count, size, sum, i, j, FullMask, F);
        j := j + F;
      }
      if j < size {
        WarmStep(src, count, size, sum, i, j, tail, size - aligned);
      }
      i := i + 1;
    }
  }

  /** The masked load of channel `c` at positions `j ..`, or of the zero
      buffer when that channel is not `inside` the tensor. */
  function NeighbourLoad(src: seq<real>, zero: seq<real>, size: nat, c: nat, inside: bool, j: nat, mask: bv16, n: nat): (r: seq<real>)
    requires LowLanes(mask, n) && j + n <= size == |zero| && (inside ==> (c + 1) * size <= |src|)
    ensures |r| == F
    ensures forall l :: 0 <= l < n ==> r[l] == if inside then At(src, c * size + j + l) else zero[j + l]
  {
    assert c * size + size == (c + 1) * size;
    if inside then MaskzLoadU(mask, src, c * size + j) else MaskzLoadU(mask, zero, j)
  }

  /** The rows of the two neighbour channels lie in the tensor when they
      exist. */
  lemma NeighbourRows(half: nat, count: nat, size: nat, i: nat)
    requires i < count
    ensures i + half < count ==> (i + half + 1) * size <= count * size
    ensures i > half ==> (i - half - 1 + 1) * size <= count * size
  {
    if i + half < count {
      MulLe(i + half + 1, count, size);
    }
    if i > half {
      MulLe(i - half, count, size);
    }
  }

  /** The running sums of one step of channel `i`:
      `pos² + (sum - neg²)` (`fmadd(pos, pos, fnmadd(neg, neg, sum))`) over the lanes of `mask`, `pos` being channel
      `i + half` and `neg` channel `i - half - 1`, each read from `zero`
      instead when that channel is outside the tensor. */
  function SlideRegister(src: seq<real>, zero: seq<real>, sums: seq<real>, half: nat, count: nat, size: nat,
                         i: nat, j: nat, mask: bv16, n: nat): (r: seq<real>)
    requires LowLanes(mask, n) && j + n <= size == |sums| == |zero| && |src| == count * size && i < count
    ensures |r| == F
  {
    var up := i + half < count;
    var down := i > half;
    NeighbourRows(half, count, size, i);
    var pos := NeighbourLoad(src, zero, size, i + half, up, j, mask, n);
    var neg := NeighbourLoad(src, zero, size, if down then i - half - 1 else 0, down, j, mask, n);
    var sum := MaskzLoadU(mask, sums, j);
    seq(F, l requires 0 <= l < F => Square(pos[l]) + (sum[l] - Square(neg[l])))
  }

  /** Lane `l` of the slide register is the window of channel `i` at
      position `j + l`, given the window of channel `i - 1` there: the
      running-sum recurrence, lane by lane. */
  lemma SlideLanes(src: seq<real>, zero: seq<real>, sums: seq<real>, half: nat, count: nat, size: nat,
                   i: nat, j: nat, mask: bv16, n: nat)
    requires LowLanes(mask, n) && j + n <= size == |sums| == |zero| && |src| == count * size && i < count
    requires forall t :: 0 <= t < size ==> zero[t] == 0.0
    requires Base.SumsAre(sums, src, half, count, size, i - 1, j, j + n)
    ensures var r := SlideRegister(src, zero, sums, half, count, size, i, j, mask, n);
            forall l :: 0 <= l < n ==> r[l] == Window(src, half, count, j + l, size, i)
  {
    forall l | 0 <= l < n
      ensures SlideRegister(src, zero, sums, half, count, size, i, j, mask, n)[l] == Window(src, half, count, j + l, size, i)
    {
      SlideLane(src, zero, sums, half, count, size, i, j, mask, n, l);
    }
  }

  /** One lane of `SlideLanes`. */
  lemma SlideLane(src: seq<real>, zero: seq<real>, sums: seq<real>, half: nat, count: nat, size: nat,
                  i: nat, j: nat, mask: bv16, n: nat, l: nat)
    requires LowLanes(mask, n) && j + n <= size == |sums| == |zero| && |src| == count * size && i < count
    requires forall t :: 0 <= t < size ==> zero[t] == 0.0
    requires Base.SumsAre(sums, src, half, count, size, i - 1, j, j + n)
    requires l < n
    ensures SlideRegister(src, zero, sums, half, count, size, i, j, mask, n)[l] == Window(src, half, count, j + l, size, i)
  {
    var r := SlideRegister(src, zero, sums, half, count, size, i, j, mask, n);
    NeighbourRows(half, count, size, i);
    var up, down := i + half < count, i > half;
    var cd := if down then i - half - 1 else 0;
    var pos := NeighbourLoad(src, zero, size, i + half, up, j, mask, n);
    var neg := NeighbourLoad(src, zero, size, cd, down, j, mask, n);
    var sum := MaskzLoadU(mask, sums, j);
    assert r[l] == Square(pos[l]) + (sum[l] - Square(neg[l]));
    NeighbourSquare(src, zero, size, i + half, up, j, mask, n, l);
    NeighbourSquare(src, zero, size, cd, down, j, mask, n, l);
    assert sum[l] == sums[j + l];
    SlideSum(src, half, count, size, i, j + l, sums[j + l], Square(pos[l]), Square(neg[l]));
  }

  /** The square of lane `l` of a neighbour load: the channel's cell, or
      zero for a channel outside the tensor. */
  lemma NeighbourSquare(src: seq<real>, zero: seq<real>, size: nat, c: nat, inside: bool, j: nat, mask: bv16, n: nat, l: nat)
    requires LowLanes(mask, n) && j + n <= size == |zero| && (inside ==> (c + 1) * size <= |src|)
    requires forall t :: 0 <= t < size ==> zero[t] == 0.0
    requires l < n
    ensures Square(NeighbourLoad(src, zero, size, c, inside, j, mask, n)[l])
         == if inside then Square(At(src, j + l + c * size)) else 0.0
  {
    var v := NeighbourLoad(src, zero, size, c, inside, j, mask, n);
    if inside {
      assert v[l] == At(src, j + l + c * size);
    } else {
      assert v[l] == zero[j + l] == 0.0;
    }
  }

  /** The running-sum recurrence at position `q`: the window of channel
      `i - 1` plus the entering square minus the leaving one. */
  lemma SlideSum(src: seq<real>, half: nat, count: nat, size: nat, i: nat, q: nat, s: real, p: real, m: real)
    requires i < count && s == Window(src, half, count, q, size, i - 1)
    requires p == if i + half < count then Square(At(src, q + (i + half) * size)) else 0.0
    requires m == if i > half then Square(At(src, q + (i - half - 1) * size)) else 0.0
    ensures p + (s - m) == Window(src, half, count, q, size, i)
  {
    WindowSlide(src, half, count, q, size, i);
  }

  /** Storing the slide register moves the boundary between the windows of
      channels `i` and `i - 1` from `j` to `j + n`. */
  lemma SumCells(s0: seq<real>, s1: seq<real>, r: seq<real>, src: seq<real>, half: nat, count: nat, size: nat,
                 i: nat, j: nat, n: nat)
    requires |r| == F && n <= F && j + n <= size == |s0|
    requires s1 == s0[..j] + r[..n] + s0[j + n..]
    requires forall l :: 0 <= l < n ==> r[l] == Window(src, half, count, j + l, size, i)
    requires Base.SumsAre(s0, src, half, count, size, i, 0, j) && Base.SumsAre(s0, src, half, count, size, i - 1, j + n, size)
    ensures Base.SumsAre(s1, src, half, count, size, i, 0, j + n) && Base.SumsAre(s1, src, half, count, size, i - 1, j + n, size)
  {
    Splice(s1, s0, r, j, n);
  }

  /** Storing the normalized register extends the written part of row `i`
      from `j` to `j + n` and leaves the rows before it alone. */
  lemma RowCells(d0: seq<real>, d1: seq<real>, out: seq<real>, src: seq<real>, half: nat, count: nat, size: nat,
                 k0: real, k1: real, k2: real, pow: (real, real) -> real, i: nat, j: nat, n: nat, row: nat)
    requires row == i * size && |out| == F && n <= F && j + n <= size && row + size <= |d0|
    requires d1 == d0[..row + j] + out[..n] + d0[row + j + n..]
    requires forall l :: 0 <= l < n ==> out[l] == Normalize(At(src, row + j + l), Window(src, half, count, j + l, size, i), k0, k1, k2, pow)
    requires Base.MajorRowDone(d0, src, half, count, size, k0, k1, k2, pow, i, j)
    ensures d1[..row] == d0[..row]
    ensures Base.MajorRowDone(d1, src, half, count, size, k0, k1, k2, pow, i, j + n)
  {
    var at := row + j;
    assert |d1| == |d0|;
    forall e | 0 <= e < at
      ensures d1[e] == d0[e]
    {
      assert d1[e] == d0[..at][e];
    }
    forall e | i * size <= e < i * size + (j + n) && e < |d1|
      ensures d1[e] == Normalize(At(src, e), Window(src, half, count, e - i * size, size, i), k0, k1, k2, pow)
    {
      if e >= at {
        assert d1[e] == out[e - at];
      }
    }
    assert d1[..row] == d0[..row];
  }

  /** One step of channel `i` over positions `j .. j+n-1`: their sums slide
      to the windows of channel `i` and the outputs are normalized by them. */
  method ChannelStep(src: seq<real>, zero: seq<real>, half: nat, count: nat, size: nat,
                     k0: real, k1: real, k2: real, pow: (real, real) -> real,
                     dst: array<real>, sum: array<real>, i: nat, j: nat, mask: bv16, n: nat)
    requires |src| == count * size && dst.Length == count * size && sum.Length == size == |zero| && sum != dst
    requires forall t :: 0 <= t < size ==> zero[t] == 0.0
    requires i < count && LowLanes(mask, n) && j + n <= size
    requires Base.SumsAre(sum[..], src, half, count, size, i, 0, j)
    requires Base.SumsAre(sum[..], src, half, count, size, i - 1, j, size)
    requires Base.MajorRowDone(dst[..], src, half, count, size, k0, k1, k2, pow, i, j)
    modifies dst, sum
    ensures Base.SumsAre(sum[..], src, half, count, size, i, 0, j + n)
    ensures Base.SumsAre(sum[..], src, half, count, size, i - 1, j + n, size)
    ensures dst[..i * size] == old(dst[..i * size])
    ensures Base.MajorRowDone(dst[..], src, half, count, size, k0, k1, k2, pow, i, j + n)
  {
    var r := SlideStep(src, zero, half, count, size, sum, i, j, mask, n);
    MulLe(i + 1, count, size);
    assert i * size + size == (i + 1) * size;
    NormalizeStep(src, r, half, count, size, k0, k1, k2, pow, dst, i, j, mask, n);
  }

  /** The sums of positions `j .. j+n-1` slide from the windows of channel
      `i - 1` to those of channel `i`, which are returned in `r`. */
  method SlideStep(src: seq<real>, zero: seq<real>, half: nat, count: nat, size: nat,
                   sum: array<real>, i: nat, j: nat, mask: bv16, n: nat) returns (r: seq<real>)
    requires |src| == count * size && sum.Length == size == |zero|
    requires forall t :: 0 <= t < size ==> zero[t] == 0.0
    requires i < count && LowLanes(mask, n) && j + n <= size
    requires Base.SumsAre(sum[..], src, half, count, size, i, 0, j)
    requires Base.SumsAre(sum[..], src, half, count, size, i - 1, j, size)
    modifies sum
    ensures |r| == F && forall l :: 0 <= l < n ==> r[l] == Window(src, half, count, j + l, size, i)
    ensures Base.SumsAre(sum[..], src, half, count, size, i, 0, j + n)
    ensures Base.SumsAre(sum[..], src, half, count, size, i - 1, j + n, size)
  {
    ghost var s0 := sum[..];
    r := SlideRegister(src, zero, sum[..], half, count, size, i, j, mask, n);
    SlideLanes(src, zero, s0, half, count, size, i, j, mask, n);
    StoreMasked(sum, j, r, mask, n);
    SumCells(s0, sum[..], r, src, half, count, size, i, j, n);
  }

  /** Positions `j .. j+n-1` of row `i` are normalized by their windows
      `r` and stored. */
  method NormalizeStep(src: seq<real>, r: seq<real>, half: nat, count: nat, size: nat,
                       k0: real, k1: real, k2: real, pow: (real, real) -> real,
                       dst: array<real>, i: nat, j: nat, mask: bv16, n: nat)
    requires |src| == count * size && dst.Length == count * size && i * size + size <= dst.Length
    requires i < count && LowLanes(mask, n) && j + n <= size && |r| == F
    requires forall l :: 0 <= l < n ==> r[l] == Window(src, half, count, j + l, size, i)
    requires Base.MajorRowDone(dst[..], src, half, count, size, k0, k1, k2, pow, i, j)
    modifies dst
    ensures dst[..i * size] == old(dst[..i * size])
    ensures Base.MajorRowDone(dst[..], src, half, count, size, k0, k1, k2, pow, i, j + n)
  {
    ghost var d0 := dst[..];
    var at := i * size + j;
    var out := NormalizeLanes(src, r, half, count, size, k0, k1, k2, pow, i, j, mask, n);
    StoreMasked(dst, at, out, mask, n);
    RowCells(d0, dst[..], out, src, half, count, size, k0, k1, k2, pow, i, j, n, i * size);
  }

  /** The register of row `i` at `j`, loaded under `mask`, normalized by the
      windows `r` of its positions. */
  method NormalizeLanes(src: seq<real>, r: seq<real>, half: nat, count: nat, size: nat,
                        k0: real, k1: real, k2: real, pow: (real, real) -> real, i: nat, j: nat, mask: bv16, n: nat)
      returns (out: seq<real>)
    requires |src| == count * size && i < count && LowLanes(mask, n) && j + n <= size && |r| == F
    requires forall l :: 0 <= l < n ==> r[l] == Window(src, half, count, j + l, size, i)
    ensures |out| == F
    ensures forall l :: 0 <= l < n ==> out[l] == Normalize(At(src, i * size + j + l), Window(src, half, count, j + l, size, i), k0, k1, k2, pow)
  {
    var at := i * size + j;
    assert at + n <= |src| by {
      MulLe(i + 1, count, size);
      assert i * size + size == (i + 1) * size;
    }
    var x := MaskzLoadLow(mask, n, src, at);
    out := seq(F, l requires 0 <= l < F => Normalize(x[l], r[l], k0, k1, k2, pow));
    forall l | 0 <= l < n
      ensures out[l] == Normalize(At(src, at + l), Window(src, half, count, j + l, size, i), k0, k1, k2, pow)
    {
    }
  }

  /** Channel `i`: its row is swept in registers up to `aligned`, then one
      masked step over the last `size - aligned` positions. */
  method Channel(src: seq<real>, zero: seq<real>, half: nat, count: nat, size: nat,
                 k0: real, k1: real, k2: real, pow: (real, real) -> real,
                 dst: array<real>, sum: array<real>, i: nat, aligned: nat, tail: bv16)
    requires |src| == count * size && dst.Length == count * size && sum.Length == size == |zero| && sum != dst
    requires forall t :: 0 <= t < size ==> zero[t] == 0.0
    requires i < count && aligned == AlignLo(size, F) && LowLanes(tail, size - aligned)
    requires Base.SumsAre(sum[..], src, half, count, size, i - 1, 0, size)
    modifies dst, sum
    ensures Base.SumsAre(sum[..], src, half, count, size, i, 0, size)
    ensures dst[..i * size] == old(dst[..i * size])
    ensures Base.MajorRowDone(dst[..], src, half, count, size, k0, k1, k2, pow, i, size)
  {
    var j := ChannelBody(src, zero, half, count, size, k0, k1, k2, pow, dst, sum, i, aligned);
    if j < size {
      ChannelStep(src, zero, half, count, size, k0, k1, k2, pow, dst, sum, i, j, tail, size - aligned);
    }
  }

  /** The unmasked steps of channel `i`, up to `aligned`. */
  method ChannelBody(src: seq<real>, zero: seq<real>, half: nat, count: nat, size: nat,
                     k0: real, k1: real, k2: real, pow: (real, real) -> real,
                     dst: array<real>, sum: array<real>, i: nat, aligned: nat) returns (j: nat)
    requires |src| == count * size && dst.Length == count * size && sum.Length == size == |zero| && sum != dst
    requires forall t :: 0 <= t < size ==> zero[t] == 0.0
    requires i < count && aligned == AlignLo(size, F)
    requires Base.SumsAre(sum[..], src, half, count, size, i - 1, 0, size)
    modifies dst, sum
    ensures j == aligned
    ensures Base.SumsAre(sum[..], src, half, count, size, i, 0, j)
    ensures Base.SumsAre(sum[..], src, half, count, size, i - 1, j, size)
    ensures dst[..i * size] == old(dst[..i * size])
    ensures Base.MajorRowDone(dst[..], src, half, count, size, k0, k1, k2, pow, i, j)
  {
    forall l: nat
      ensures LaneOn(FullMask, l) <==> l < F
    {
      FullMaskLanes(l);
    }
    j := 0;
    while j < aligned
      invariant j <= aligned && j % F == 0
      invariant Base.SumsAre(sum[..], src, half, count, size, i, 0, j)
      invariant Base.SumsAre(sum[..], src, half, count, size, i - 1, j, size)
      invariant dst[..i * size] == old(dst[..i * size])
      invariant Base.MajorRowDone(dst[..], src, half, count, size, k0, k1, k2, pow, i, j)
    {
      Base.AlignedStep(j, aligned, F);
      ChannelStep(src, zero, half, count, size, k0, k1, k2, pow, dst, sum, i, j, FullMask, F);
      j := j + F;
    }
  }

  /** The channel-major path: a warm-up over the first `half` channels, then
      one sweep per channel. */
  method Major(src: seq<real>, half: nat, count: nat, size: nat, k0: real, k1: real, k2: real, pow: (real, real) -> real,
               dst: array<real>, ghost l: seq<real>)
    requires |src| == count * size && dst.Length == count * size && half <= count
    requires |l| == count * size
    requires forall c, q :: 0 <= c < count && 0 <= q < size ==> LrnMajorAt(l, src, half, count, size, k0, k1, k2, pow, c, q)
    modifies dst
    ensures forall e :: 0 <= e < count * size ==> dst[e] == l[e]
  {
    var aligned := AlignLo(size, F);
    var tail := TailMask16(size - aligned);
    forall q: nat
      ensures LaneOn(tail, q) <==> q < size - aligned
    {
      ShiftedMaskLanes(16 - (size - aligned), q);
    }
    var sum := new real[size](_ => 0.0);
    var zero := seq(size, _ => 0.0);
    WarmUp(src, half, count, size, sum);
    var i := 0;
    while i < count
      invariant i <= count && i * size <= count * size
      invariant Base.SumsAre(sum[..], src, half, count, size, i - 1, 0, size)
      invariant forall e :: 0 <= e < i * size ==> dst[e] == l[e]
    {
      MulLe(i + 1, count, size);
      assert (i + 1) * size == i * size + size;
      ghost var d0 := dst[..];
      Channel(src, zero, half, count, size, k0, k1, k2, pow, dst, sum, i, aligned, tail);
      Base.MajorRowMeetsSpec(d0, dst[..], l, src, half, count, size, k0, k1, k2, pow, i);
      i := i + 1;
    }
  }

  // ---------------------------------------------------------------------
  // The layer.

  /** `SynetLrnLayerCrossChannels`: channel-last tensors other than
      `half == 2`, `count >= F + half` go to the AVX2 kernel (not part of
      this model: `dst` is left as it is and `computed` is false); every
      other tensor is normalized here, with the same result as the scalar
      kernel. */
  method LrnLayerCrossChannels(src: seq<real>, half: nat, count: nat, size: nat, k: seq<real>, pow: (real, real) -> real,
                               dst: array<real>, trans: bool) returns (computed: bool)
    requires |src| == count * size && dst.Length == count * size && |k| >= 3
    requires size > 0 && !trans ==> half <= count
    modifies dst
    ensures computed <==> !trans || (half == 2 && count >= F + half)
    ensures computed ==> dst[..] == Lrn(src, half, count, size, k[0], k[1], k[2], pow, trans)
    ensures !computed ==> dst[..] == old(dst[..])
  {
    var k0, k1, k2 := k[0], k[1], k[2];
    ghost var l := Lrn(src, half, count, size, k0, k1, k2, pow, trans);
    LrnLength(src, half, count, size, k0, k1, k2, pow, trans);
    if trans {
      if half != 2 || count < F + half {
        return false;
      }
      forall j, i | 0 <= j < size && 0 <= i < count
        ensures LrnLastAt(l, src, half, count, k0, k1, k2, pow, j, i)
      {
        LrnCellLast(src, half, count, size, k0, k1, k2, pow, j, i);
      }
      var j := 0;
      while j < size
        invariant j <= size && j * count <= count * size
        invariant forall e :: 0 <= e < j * count ==> dst[e] == l[e]
      {
        MulLe(j + 1, size, count);
        assert (j + 1) * count == j * count + count;
        ghost var d0 := dst[..];
        LastRowFast(src, count, k0, k1, k2, pow, dst, j * count);
        StoredRowDone(dst[..], d0, src, count, j * count, k0, k1, k2, pow);
        Base.LastRowMeetsSpec(d0, dst[..], l, src, half, count, size, k0, k1, k2, pow, j);
        j := j + 1;
      }
      assert j * count == count * size;
      assert dst[..] == l;
    } else if size > 0 {
      forall i, t | 0 <= i < count && 0 <= t < size
        ensures LrnMajorAt(l, src, half, count, size, k0, k1, k2, pow, i, t)
      {
        LrnCellMajor(src, half, count, size, k0, k1, k2, pow, i, t);
      }
      Major(src, half, count, size, k0, k1, k2, pow, dst, l);
      assert dst[..] == l;
    } else {
      assert dst[..] == [] == l;
    }
    computed := true;
  }
}
