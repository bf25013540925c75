/** The lane abstraction shared by the AVX-512 kernels: a register holds F = 16
    float lanes, rows are swept in unrolled steps of QF = 4·F, then single
    steps of F, then one masked step; a 16-bit mask selects the lanes a masked
    load or store touches. */
module Lanes {
  /** Lanes per register. */
  const F: nat := 16
  /** Four registers: the unrolled step. */
  const QF: nat := 64

  /** `AlignLo(n, a)`: the largest multiple of `a` that is not above `n`. */
  function AlignLo(n: nat, a: nat): (r: nat)
    requires a > 0
    ensures r <= n && r % a == 0 && n - r < a
  {
    var q := n / a;
    assert n == q * a + n % a;
    MultipleMod(q, a);
    assert n - n % a == q * a;
    n - n % a
  }

  /** A multiple of `a` leaves no remainder. */
  lemma MultipleMod(q: nat, a: nat)
    requires a > 0
    ensures (q * a) % a == 0
  {
    var t := q - (q * a) / a;
    assert t * a == (q * a) % a;
  }

  /** The three breakpoints of a row sweep: the QF loop ends at `aligned`, the
      F loop at `partial`, and what is left for the masked step is below F. */
  lemma SegmentBreakpoints(n: nat)
    ensures AlignLo(n, QF) <= AlignLo(n, F) <= n
    ensures AlignLo(n, QF) % F == 0
    ensures AlignLo(n, F) - AlignLo(n, QF) < QF
    ensures n - AlignLo(n, F) < F
  {
    var q := n / QF;
    assert n == q * QF + n % QF;
    assert AlignLo(n, QF) == q * 16 * 4;
    assert n % QF == n - q * 16 * 4;
    var r := n % QF;
    assert (q * 16 * 4 + r) % 16 == r % 16;
    assert n % F == r % F;
  }

  /** Whether lane `l` of mask `m` is set. */
  predicate LaneOn(m: bv16, l: nat)
  {
    l < 16 && (m >> l) & 1 == 1
  }

  /** The mask with every lane set (`__mmask16(-1)`). */
  const FullMask: bv16 := 0xFFFF

  /** `__mmask16(-1) >> s`, the way the kernels build their tail masks. */
  function ShiftedMask(s: nat): bv16
    requires s <= 16
  {
    0xFFFF >> s
  }

  /** `TailMask16(k)`: the mask of the low `k` lanes (its definition lives in a
      header that is not part of this model; it is the shifted mask). */
  function TailMask16(k: nat): bv16
    requires k <= 16
  {
    ShiftedMask(16 - k)
  }

  /** Every lane of the full mask is set. */
  lemma FullMaskLanes(l: nat)
    ensures LaneOn(FullMask, l) <==> l < F
  {
  }

  /** `__mmask16(-1) >> s` has exactly the low `16 - s` lanes set. */
  lemma ShiftedMaskLanes(s: nat, l: nat)
    requires s <= 16
    ensures LaneOn(ShiftedMask(s), l) <==> l < F - s
  {
  }

  /** The tail mask of a row of `n` cells, `__mmask16(-1) >> (F + partial - n)`,
      selects exactly the `n - partial` cells the F loop left over; when `n` is a
      multiple of F it selects no lane at all. */
  lemma TailMaskOfRow(n: nat, l: nat)
    ensures F + AlignLo(n, F) - n <= 16
    ensures LaneOn(ShiftedMask(F + AlignLo(n, F) - n), l) <==> l < n - AlignLo(n, F)
    ensures n % F == 0 ==> !LaneOn(ShiftedMask(F + AlignLo(n, F) - n), l)
  {
    ShiftedMaskLanes(F + AlignLo(n, F) - n, l);
  }

  /** Lanes `0 .. n-1` of `mask` are exactly the ones set. */
  ghost predicate LowLanes(mask: bv16, n: nat)
  {
    n <= F && forall l: nat :: LaneOn(mask, l) <==> l < n
  }

  /** The full mask holds all sixteen lanes. */
  lemma FullMaskLow()
    ensures LowLanes(FullMask, F)
  {
    forall l: nat
      ensures LaneOn(FullMask, l) <==> l < F
    {
      FullMaskLanes(l);
    }
  }

  /** `TailMask16(k)` holds lanes `0 .. k-1`. */
  lemma TailMaskLow(k: nat)
    requires k <= F
    ensures LowLanes(TailMask16(k), k)
  {
    forall l: nat
      ensures LaneOn(TailMask16(k), l) <==> l < k
    {
      ShiftedMaskLanes(16 - k, l);
    }
  }

  /** A lane of a masked load with zeroing (`_mm512_maskz_loadu_ps`): the cell
      `src[at + l]` when lane `l` is set, zero otherwise. A lane that is off is
      never read. */
  function MaskzLane(mask: bv16, src: seq<real>, at: int, l: nat): real
    requires LaneOn(mask, l) ==> 0 <= at + l < |src|
  {
    if LaneOn(mask, l) then src[at + l] else 0.0
  }

  /** `_mm512_loadu_ps(v + at)`: all sixteen cells must exist. */
  function LoadU(v: seq<real>, at: nat): (r: seq<real>)
    requires at + F <= |v|
    ensures |r| == F
  {
    seq(F, l requires 0 <= l < F => v[at + l])
  }

  /** `_mm512_maskz_loadu_ps(mask, v + at)`: only the lanes of `mask` are read
      and must exist (`at` itself may lie before `v` when the low lanes are
      off); the others are zero. */
  function MaskzLoadU(mask: bv16, v: seq<real>, at: int): (r: seq<real>)
    requires forall l: nat :: LaneOn(mask, l) ==> 0 <= at + l < |v|
    ensures |r| == F
  {
    seq(F, l requires 0 <= l < F => MaskzLane(mask, v, at, l))
  }

  /** `MaskzLoadU` under a mask of the low `n` lanes: the `n` cells from `at`,
      then zeros. */
  function MaskzLoadLow(mask: bv16, n: nat, v: seq<real>, at: nat): (r: seq<real>)
    requires LowLanes(mask, n) && at + n <= |v|
    ensures |r| == F
    ensures forall l :: 0 <= l < n ==> r[l] == v[at + l]
    ensures forall l :: n <= l < F ==> r[l] == 0.0
  {
    MaskzLoadU(mask, v, at)
  }

  /** A masked 16-lane read-modify-write at `dst[at..]`: every lane set in
      `mask` gets `f(old cell, off + l)` and no other cell of `dst` changes.
      The unmasked load/store of the kernels is the call with `FullMask`. */
  method MaskedUpdate(dst: array<real>, at: nat, mask: bv16, off: nat, f: (real, nat) -> real)
    requires forall l :: LaneOn(mask, l) ==> at + l < dst.Length
    modifies dst
    ensures forall k :: 0 <= k < dst.Length ==>
      dst[k] == if at <= k && LaneOn(mask, k - at) then f(old(dst[k]), off + (k - at)) else old(dst[k])
  {
    forall l | 0 <= l < F && LaneOn(mask, l) {
      dst[at + l] := f(dst[at + l], off + l);
    }
  }

  /** `_mm512_mask_storeu_ps(dst + at, mask, v)` with a mask of the low `n`
      lanes: the `n` cells from `at` receive the first `n` lanes of `v` and
      no other cell changes. */
  method StoreMasked(dst: array<real>, at: nat, v: seq<real>, mask: bv16, n: nat)
    requires |v| == F && n <= F && at + n <= dst.Length
    requires forall l: nat :: LaneOn(mask, l) <==> l < n
    modifies dst
    ensures dst[..] == old(dst[..])[..at] + v[..n] + old(dst[..])[at + n..]
  {
    MaskedUpdate(dst, at, mask, 0, (_: real, l: nat) => if l < |v| then v[l] else 0.0);
    forall e | 0 <= e < dst.Length && at <= e
      ensures dst[e] == if e < at + n then v[e - at] else old(dst[e])
    {
      assert LaneOn(mask, e - at) <==> e - at < n;
    }
    assert dst[..] == old(dst[..])[..at] + v[..n] + old(dst[..])[at + n..];
  }

  /** `_mm512_storeu_ps(dst + at, v)`: the sixteen cells from `at` receive
      the lanes of `v` and no other cell changes. */
  method StoreU(dst: array<real>, at: nat, v: seq<real>)
    requires |v| == F && at + F <= dst.Length
    modifies dst
    ensures dst[..] == old(dst[..])[..at] + v + old(dst[..])[at + F..]
  {
    forall l: nat
      ensures LaneOn(FullMask, l) <==> l < F
    {
      FullMaskLanes(l);
    }
    StoreMasked(dst, at, v, FullMask, F);
    assert v[..F] == v;
  }

  /** A store of `n` lanes at `at`, cell by cell. */
  lemma Splice(d: seq<real>, before: seq<real>, v: seq<real>, at: nat, n: nat)
    requires n <= |v| && at + n <= |before| && d == before[..at] + v[..n] + before[at + n..]
    ensures |d| == |before|
    ensures forall e :: 0 <= e < |d| ==> d[e] == if at <= e < at + n then v[e - at] else before[e]
  {
    forall e | 0 <= e < |d|
      ensures d[e] == if at <= e < at + n then v[e - at] else before[e]
    {
      if e < at {
        assert d[e] == before[..at][e];
      } else if e >= at + n {
        assert d[e] == before[at + n..][e - (at + n)];
      }
    }
  }
}
