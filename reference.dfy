/** What each Synet kernel computes, stated once per operation as a function of
    its inputs. Both the scalar kernels and the AVX-512 drivers are proved to
    produce exactly these sequences. */
module Reference {
  import opened Layout
  import opened Formulas

  datatype Option<T> = None | Some(value: T)

  /** A per-element rule: (source value, flat index, channel) to result. */
  type Cell = (real, nat, nat) -> real

  /** The result of applying `g` to every element of a `channels × spatial`
      tensor stored in order `o`. */
  function PerChannel(src: seq<real>, o: Order, channels: nat, spatial: nat, g: Cell): seq<real>
  {
    seq(|src|, k requires 0 <= k < |src| => g(src[k], k, ChannelOf(o, k, channels, spatial)))
  }

  /** `dst += bias[c]`. */
  function BiasCell(bias: seq<real>): Cell
  {
    (x, k, c) => x + At(bias, c)
  }

  /** `src·scale[c] + bias[c]`, or `src·scale[c]` without a bias. */
  function ScaleCell(scale: seq<real>, bias: Option<seq<real>>): Cell
  {
    (x, k, c) => if bias.Some? then ScaleShift(x, At(scale, c), At(bias.value, c)) else x * At(scale, c)
  }

  function Fused0Cell(bias: seq<real>, scale: seq<real>): Cell
  {
    (x, k, c) => Fused0(x + At(bias, c), At(scale, c))
  }

  function Fused1Cell(bias0: seq<real>, scale1: seq<real>, bias1: seq<real>): Cell
  {
    (x, k, c) => Fused1(x + At(bias0, c), At(scale1, c), At(bias1, c))
  }

  /** Variant 2 shares one slope across all channels. */
  function Fused2Cell(scale: seq<real>, bias: seq<real>, slope: real): Cell
  {
    (x, k, c) => Fused2(x * At(scale, c) + At(bias, c), slope)
  }

  function Fused3Cell(bias: seq<real>, scale: seq<real>): Cell
  {
    (x, k, c) => Fused3(x + At(bias, c), At(scale, c))
  }

  /** Variant 8: `src0 + src1·src2[c]`, `src1` read at the same flat index. */
  function Fused8Cell(src1: seq<real>, src2: seq<real>): Cell
  {
    (x, k, c) => Fused8(x, At(src1, k), At(src2, c))
  }

  function PreluCell(slope: seq<real>): Cell
  {
    (x, k, c) => Prelu(x, At(slope, c))
  }

  /** Every element of the tensor is produced from its own channel's
      parameters, whatever the order. */
  lemma PerChannelPlacement(src: seq<real>, o: Order, channels: nat, spatial: nat, g: Cell, c: nat, s: nat)
    requires WellFormed(o, channels) && |src| == channels * spatial
    requires c < channels && s < spatial
    ensures IndexOf(o, c, s, channels, spatial) < |src|
    ensures PerChannel(src, o, channels, spatial, g)[IndexOf(o, c, s, channels, spatial)]
         == g(At(src, IndexOf(o, c, s, channels, spatial)), IndexOf(o, c, s, channels, spatial), c)
  {
    IndexOfPlacement(o, c, s, channels, spatial);
  }

  /** The traversal switch of the fused layers and PReLU: channel-last puts
      parameter `i` on element `j·count+i`, channel-major on element
      `i·size+j`; either way the result has `count·size` elements. */
  lemma FusedTraversal(src: seq<real>, count: nat, size: nat, trans: bool, g: Cell, i: nat, j: nat)
    requires |src| == count * size && i < count && j < size
    ensures |PerChannel(src, FusedOrder(trans, count, size), count, size, g)| == count * size
    ensures (trans || size == 1) && count != 1 ==>
      j * count + i < |src| &&
      PerChannel(src, FusedOrder(trans, count, size), count, size, g)[j * count + i] == g(At(src, j * count + i), j * count + i, i)
    ensures !((trans || size == 1) && count != 1) ==>
      i * size + j < |src| &&
      PerChannel(src, FusedOrder(trans, count, size), count, size, g)[i * size + j] == g(At(src, i * size + j), i * size + j, i)
  {
    PerChannelPlacement(src, FusedOrder(trans, count, size), count, size, g, i, j);
  }

  // ---------------------------------------------------------------------
  // Two-stream layouts: fused variants 4 and 9.

  /** Rows of `a` (width `wa`) and of `b` (width `wb`) interleaved: row `r` of
      the result is row `r` of `a` followed by row `r` of `b`. */
  function JoinRows(a: seq<real>, wa: nat, b: seq<real>, wb: nat, rows: nat): (r: seq<real>)
    ensures |r| == (wa + wb) * rows
  {
    if rows == 0 then [] else JoinRows(a, wa, b, wb, rows - 1) + Row(a, wa, rows - 1) + Row(b, wb, rows - 1)
  }

  /** Row `r` of a tensor stored `w` cells per row. */
  function Row(a: seq<real>, w: nat, r: nat): seq<real>
  {
    seq(w, t requires 0 <= t < w => At(a, r * w + t))
  }

  /** Cell `t` of row `r` of `a` sits at `r·(wa+wb) + t`, cell `t` of row `r`
      of `b` at `r·(wa+wb) + wa + t`. */
  lemma JoinRowsAt(a: seq<real>, wa: nat, b: seq<real>, wb: nat, rows: nat, r: nat, t: nat)
    requires r < rows
    ensures t < wa ==>
      r * (wa + wb) + t < (wa + wb) * rows &&
      JoinRows(a, wa, b, wb, rows)[r * (wa + wb) + t] == At(a, r * wa + t)
    ensures t < wb ==>
      r * (wa + wb) + wa + t < (wa + wb) * rows &&
      JoinRows(a, wa, b, wb, rows)[r * (wa + wb) + wa + t] == At(b, r * wb + t)
  {
    if t < wa {
      JoinRowsCell(a, wa, b, wb, rows, r, t);
    }
    if t < wb {
      JoinRowsCell(a, wa, b, wb, rows, r, wa + t);
    }
  }

  /** Cell `x` of row `r` of the joined rows: row `r` of `a` when `x < wa`,
      row `r` of `b` after it. */
  lemma {:induction false} JoinRowsCell(a: seq<real>, wa: nat, b: seq<real>, wb: nat, rows: nat, r: nat, x: nat)
    requires r < rows && x < wa + wb
    ensures r * (wa + wb) + x < (wa + wb) * rows
    ensures JoinRows(a, wa, b, wb, rows)[r * (wa + wb) + x]
         == if x < wa then At(a, r * wa + x) else At(b, r * wb + (x - wa))
  {
    RowInside(r, x, wa + wb, rows);
    if r == rows - 1 {
      JoinRowsLast(a, wa, b, wb, rows, x);
    } else {
      JoinRowsCell(a, wa, b, wb, rows - 1, r, x);
      JoinRowsKeeps(a, wa, b, wb, rows, r * (wa + wb) + x);
    }
  }

  /** The last row of the joined rows. */
  lemma JoinRowsLast(a: seq<real>, wa: nat, b: seq<real>, wb: nat, rows: nat, x: nat)
    requires 0 < rows && x < wa + wb
    ensures (rows - 1) * (wa + wb) + x < |JoinRows(a, wa, b, wb, rows)|
    ensures JoinRows(a, wa, b, wb, rows)[(rows - 1) * (wa + wb) + x]
         == if x < wa then At(a, (rows - 1) * wa + x) else At(b, (rows - 1) * wb + (x - wa))
  {
    var prefix := JoinRows(a, wa, b, wb, rows - 1);
    var tail := Row(a, wa, rows - 1) + Row(b, wb, rows - 1);
    assert JoinRows(a, wa, b, wb, rows) == prefix + tail;
    assert (prefix + tail)[|prefix| + x] == tail[x];
  }

  /** Adding a row keeps the earlier cells. */
  lemma JoinRowsKeeps(a: seq<real>, wa: nat, b: seq<real>, wb: nat, rows: nat, k: nat)
    requires 0 < rows && k < (wa + wb) * (rows - 1)
    ensures k < |JoinRows(a, wa, b, wb, rows)|
    ensures JoinRows(a, wa, b, wb, rows)[k] == JoinRows(a, wa, b, wb, rows - 1)[k]
  {
    var prefix := JoinRows(a, wa, b, wb, rows - 1);
    var tail := Row(a, wa, rows - 1) + Row(b, wb, rows - 1);
    assert JoinRows(a, wa, b, wb, rows) == prefix + tail;
  }

  /** Variant 4's first output, `max(0, src + bias0[c])`. */
  function Fused4FirstCell(bias0: seq<real>): Cell
  {
    (x, k, c) => Relu(x + At(bias0, c))
  }

  /** Variant 4's second output, `max(0, (src + bias0[c])·scale1 + bias1)`
      with one `scale1` and one `bias1` for all channels. */
  function Fused4SecondCell(bias0: seq<real>, scale1: real, bias1: real): Cell
  {
    (x, k, c) => Fused4Second(x + At(bias0, c), scale1, bias1)
  }

  /** Both outputs of variant 4 in one buffer of `2·count·size` elements:
      channel-last, each row holds a position's first outputs then its second
      outputs; otherwise the whole first output precedes the whole second. */
  function Fused4(src: seq<real>, bias0: seq<real>, scale1: real, bias1: real, count: nat, size: nat, trans: bool): seq<real>
  {
    var o := FusedOrder(trans, count, size);
    var first := PerChannel(src, o, count, size, Fused4FirstCell(bias0));
    var second := PerChannel(src, o, count, size, Fused4SecondCell(bias0, scale1, bias1));
    if o == ChannelLast then JoinRows(first, count, second, count, size) else first + second
  }

  /** Variant 4 has two results per source element. */
  lemma Fused4Length(src: seq<real>, bias0: seq<real>, scale1: real, bias1: real, count: nat, size: nat, trans: bool)
    requires |src| == count * size
    ensures |Fused4(src, bias0, scale1, bias1, count, size, trans)| == 2 * count * size
  {
  }

  /** Channel-last, variant 4 puts its two results for channel `i` at
      position `j` at `j·2·count + i` and `j·2·count + count + i`. */
  lemma Fused4PlacementLast(src: seq<real>, bias0: seq<real>, scale1: real, bias1: real, count: nat, size: nat, trans: bool, i: nat, j: nat)
    requires (trans || size == 1) && count != 1
    requires |src| == count * size && i < count && j < size
    ensures |Fused4(src, bias0, scale1, bias1, count, size, trans)| == 2 * count * size
    ensures j * (2 * count) + count + i < 2 * count * size
    ensures Fused4(src, bias0, scale1, bias1, count, size, trans)[j * (2 * count) + i]
         == Relu(At(src, j * count + i) + At(bias0, i))
    ensures Fused4(src, bias0, scale1, bias1, count, size, trans)[j * (2 * count) + count + i]
         == Fused4Second(At(src, j * count + i) + At(bias0, i), scale1, bias1)
  {
    var first := PerChannel(src, ChannelLast, count, size, Fused4FirstCell(bias0));
    var second := PerChannel(src, ChannelLast, count, size, Fused4SecondCell(bias0, scale1, bias1));
    RowInside(j, i, count, size);
    RowInside(j, count + i, 2 * count, size);
    assert Fused4(src, bias0, scale1, bias1, count, size, trans) == JoinRows(first, count, second, count, size);
    PerChannelPlacement(src, ChannelLast, count, size, Fused4FirstCell(bias0), i, j);
    PerChannelPlacement(src, ChannelLast, count, size, Fused4SecondCell(bias0, scale1, bias1), i, j);
    JoinRowsAt(first, count, second, count, size, j, i);
  }

  /** Otherwise the first result of channel `i` at position `j` is at
      `i·size + j` and the second `count·size` further on. */
  lemma Fused4PlacementMajor(src: seq<real>, bias0: seq<real>, scale1: real, bias1: real, count: nat, size: nat, trans: bool, i: nat, j: nat)
    requires !((trans || size == 1) && count != 1)
    requires |src| == count * size && i < count && j < size
    ensures |Fused4(src, bias0, scale1, bias1, count, size, trans)| == 2 * count * size
    ensures count * size + i * size + j < 2 * count * size
    ensures Fused4(src, bias0, scale1, bias1, count, size, trans)[i * size + j]
         == Relu(At(src, i * size + j) + At(bias0, i))
    ensures Fused4(src, bias0, scale1, bias1, count, size, trans)[count * size + i * size + j]
         == Fused4Second(At(src, i * size + j) + At(bias0, i), scale1, bias1)
  {
    var first := PerChannel(src, ChannelMajor, count, size, Fused4FirstCell(bias0));
    var second := PerChannel(src, ChannelMajor, count, size, Fused4SecondCell(bias0, scale1, bias1));
    assert Fused4(src, bias0, scale1, bias1, count, size, trans) == first + second;
    PerChannelPlacement(src, ChannelMajor, count, size, Fused4FirstCell(bias0), i, j);
    PerChannelPlacement(src, ChannelMajor, count, size, Fused4SecondCell(bias0, scale1, bias1), i, j);
  }

  /** Variant 9's order: channel-last when asked or when there is a single
      position (unlike the other variants, one channel does not matter). */
  function Fused9Order(trans: bool, size: nat): Order
  {
    if trans || size == 1 then ChannelLast else ChannelMajor
  }

  /** The logical concatenation of the `count0`-channel and `count1`-channel
      sources along the channel axis, in variant 9's order. */
  function Concat(src0: seq<real>, src1: seq<real>, count0: nat, count1: nat, size: nat, trans: bool): seq<real>
  {
    if Fused9Order(trans, size) == ChannelLast then JoinRows(src0, count0, src1, count1, size) else src0 + src1
  }

  /** `max(0, src·scale[c] + bias[c])` over the concatenated channels: the
      parameters of the second group start at `count0`. */
  function Fused9Cell(scale: seq<real>, bias: seq<real>): Cell
  {
    (x, k, c) => Formulas.Fused9(x, At(scale, c), At(bias, c))
  }

  /** Variant 9's first output. */
  function Fused9Output(src0: seq<real>, src1: seq<real>, scale: seq<real>, bias: seq<real>, count0: nat, count1: nat, size: nat, trans: bool): seq<real>
  {
    PerChannel(Concat(src0, src1, count0, count1, size, trans), Fused9Order(trans, size), count0 + count1, size, Fused9Cell(scale, bias))
  }

  /** Channel-last, channel `i` of the second group at position `j` is read
      from `src1[j·count1 + i]`, scaled with the parameters at `count0 + i`,
      and lands at `j·(count0+count1) + count0 + i`. */
  lemma Fused9SecondGroupLast(src0: seq<real>, src1: seq<real>, scale: seq<real>, bias: seq<real>,
                              count0: nat, count1: nat, size: nat, trans: bool, i: nat, j: nat)
    requires trans || size == 1
    requires |src0| == count0 * size && |src1| == count1 * size && i < count1 && j < size
    ensures |Concat(src0, src1, count0, count1, size, trans)| == (count0 + count1) * size
    ensures j * (count0 + count1) + count0 + i < (count0 + count1) * size
    ensures Concat(src0, src1, count0, count1, size, trans)[j * (count0 + count1) + count0 + i] == At(src1, j * count1 + i)
    ensures Fused9Output(src0, src1, scale, bias, count0, count1, size, trans)[j * (count0 + count1) + count0 + i]
         == Formulas.Fused9(At(src1, j * count1 + i), At(scale, count0 + i), At(bias, count0 + i))
  {
    ConcatLength(src0, src1, count0, count1, size, trans);
    ConcatSecondLast(src0, src1, count0, count1, size, trans, i, j);
    Fused9OutputLast(src0, src1, scale, bias, count0, count1, size, trans, count0 + i, j);
  }

  /** `PerChannelPlacement` for the channel-last order. */
  lemma PerChannelLast(src: seq<real>, channels: nat, spatial: nat, g: Cell, c: nat, s: nat)
    requires |src| == channels * spatial && c < channels && s < spatial
    ensures s * channels + c < |src|
    ensures PerChannel(src, ChannelLast, channels, spatial, g)[s * channels + c] == g(At(src, s * channels + c), s * channels + c, c)
  {
    PerChannelPlacement(src, ChannelLast, channels, spatial, g, c, s);
  }

  /** The channel-last concatenation places `src1`'s channel `i` at position
      `j` after the `count0` channels of `src0`. */
  lemma ConcatSecondLast(src0: seq<real>, src1: seq<real>, count0: nat, count1: nat, size: nat, trans: bool, i: nat, j: nat)
    requires trans || size == 1
    requires |src0| == count0 * size && |src1| == count1 * size && i < count1 && j < size
    ensures j * (count0 + count1) + count0 + i < (count0 + count1) * size
    ensures Concat(src0, src1, count0, count1, size, trans)[j * (count0 + count1) + count0 + i] == At(src1, j * count1 + i)
  {
    ConcatLength(src0, src1, count0, count1, size, trans);
    assert Concat(src0, src1, count0, count1, size, trans) == JoinRows(src0, count0, src1, count1, size);
    JoinRowsSecond(src0, count0, src1, count1, size, i, j);
  }

  /** The concatenation holds both groups. */
  lemma ConcatLength(src0: seq<real>, src1: seq<real>, count0: nat, count1: nat, size: nat, trans: bool)
    requires |src0| == count0 * size && |src1| == count1 * size
    ensures |Concat(src0, src1, count0, count1, size, trans)| == (count0 + count1) * size
  {
  }

  /** Cell `i` of row `j` of `b` in the joined rows, when `b` has exactly
      `rows` rows. */
  lemma JoinRowsSecond(a: seq<real>, wa: nat, b: seq<real>, wb: nat, rows: nat, i: nat, j: nat)
    requires |b| == wb * rows && i < wb && j < rows
    ensures j * (wa + wb) + wa + i < (wa + wb) * rows
    ensures JoinRows(a, wa, b, wb, rows)[j * (wa + wb) + wa + i] == At(b, j * wb + i)
  {
    RowInside(j, i, wb, rows);
    JoinRowsAt(a, wa, b, wb, rows, j, i);
  }

  /** Channel-last, channel `i` of the first group at position `j` is read
      from `src0[j·count0 + i]` and lands at `j·(count0+count1) + i`. */
  lemma Fused9FirstGroupLast(src0: seq<real>, src1: seq<real>, scale: seq<real>, bias: seq<real>,
                             count0: nat, count1: nat, size: nat, trans: bool, i: nat, j: nat)
    requires trans || size == 1
    requires |src0| == count0 * size && |src1| == count1 * size && i < count0 && j < size
    ensures var cat := Concat(src0, src1, count0, count1, size, trans);
            var out := Fused9Output(src0, src1, scale, bias, count0, count1, size, trans);
            j * (count0 + count1) + i < |cat| &&
            cat[j * (count0 + count1) + i] == At(src0, j * count0 + i) &&
            out[j * (count0 + count1) + i] == Formulas.Fused9(At(src0, j * count0 + i), At(scale, i), At(bias, i))
  {
    ConcatFirstLast(src0, src1, count0, count1, size, trans, i, j);
    Fused9OutputLast(src0, src1, scale, bias, count0, count1, size, trans, i, j);
    RowInside(j, i, count0, size);
  }

  /** Channel-last, output cell `s·(count0+count1) + c` is variant 9 of the
      concatenation's cell with the parameters of channel `c`. */
  lemma Fused9OutputLast(src0: seq<real>, src1: seq<real>, scale: seq<real>, bias: seq<real>,
                         count0: nat, count1: nat, size: nat, trans: bool, c: nat, s: nat)
    requires trans || size == 1
    requires |src0| == count0 * size && |src1| == count1 * size && c < count0 + count1 && s < size
    ensures var cat := Concat(src0, src1, count0, count1, size, trans);
            var out := Fused9Output(src0, src1, scale, bias, count0, count1, size, trans);
            s * (count0 + count1) + c < |cat| &&
            out[s * (count0 + count1) + c] == Formulas.Fused9(cat[s * (count0 + count1) + c], At(scale, c), At(bias, c))
  {
    var cat := Concat(src0, src1, count0, count1, size, trans);
    ConcatLength(src0, src1, count0, count1, size, trans);
    RowInside(s, c, count0 + count1, size);
    PerChannelLast(cat, count0 + count1, size, Fused9Cell(scale, bias), c, s);
  }

  /** The channel-last concatenation places `src0`'s channel `i` at position
      `j` first in the row. */
  lemma ConcatFirstLast(src0: seq<real>, src1: seq<real>, count0: nat, count1: nat, size: nat, trans: bool, i: nat, j: nat)
    requires trans || size == 1
    requires |src0| == count0 * size && |src1| == count1 * size && i < count0 && j < size
    ensures j * (count0 + count1) + i < (count0 + count1) * size
    ensures Concat(src0, src1, count0, count1, size, trans)[j * (count0 + count1) + i] == At(src0, j * count0 + i)
  {
    ConcatLength(src0, src1, count0, count1, size, trans);
    assert Concat(src0, src1, count0, count1, size, trans) == JoinRows(src0, count0, src1, count1, size);
    JoinRowsFirst(src0, count0, src1, count1, size, i, j);
  }

  /** Cell `i` of row `j` of `a` in the joined rows, when `a` has exactly
      `rows` rows. */
  lemma JoinRowsFirst(a: seq<real>, wa: nat, b: seq<real>, wb: nat, rows: nat, i: nat, j: nat)
    requires |a| == wa * rows && i < wa && j < rows
    ensures j * (wa + wb) + i < (wa + wb) * rows
    ensures JoinRows(a, wa, b, wb, rows)[j * (wa + wb) + i] == At(a, j * wa + i)
  {
    RowInside(j, i, wa, rows);
    JoinRowsAt(a, wa, b, wb, rows, j, i);
  }

  /** Otherwise the first group's channel `i` at position `j` is
      `src0[i·size + j]` and stays at `i·size + j`. */
  lemma Fused9FirstGroupMajor(src0: seq<real>, src1: seq<real>, scale: seq<real>, bias: seq<real>,
                              count0: nat, count1: nat, size: nat, trans: bool, i: nat, j: nat)
    requires !(trans || size == 1)
    requires |src0| == count0 * size && |src1| == count1 * size && i < count0 && j < size
    ensures |Concat(src0, src1, count0, count1, size, trans)| == (count0 + count1) * size
    ensures i * size + j < count0 * size
    ensures Concat(src0, src1, count0, count1, size, trans)[i * size + j] == At(src0, i * size + j)
    ensures Fused9Output(src0, src1, scale, bias, count0, count1, size, trans)[i * size + j]
         == Formulas.Fused9(At(src0, i * size + j), At(scale, i), At(bias, i))
  {
    var cat := Concat(src0, src1, count0, count1, size, trans);
    assert cat == src0 + src1;
    RowInside(i, j, size, count0);
    PerChannelPlacement(cat, ChannelMajor, count0 + count1, size, Fused9Cell(scale, bias), i, j);
  }

  /** Otherwise the second group's channel `i` at position `j` is
      `src1[i·size + j]` and lands at `count0·size + i·size + j`. */
  lemma Fused9SecondGroupMajor(src0: seq<real>, src1: seq<real>, scale: seq<real>, bias: seq<real>,
                               count0: nat, count1: nat, size: nat, trans: bool, i: nat, j: nat)
    requires !(trans || size == 1)
    requires |src0| == count0 * size && |src1| == count1 * size && i < count1 && j < size
    ensures |Concat(src0, src1, count0, count1, size, trans)| == (count0 + count1) * size
    ensures count0 * size + i * size + j < (count0 + count1) * size
    ensures Concat(src0, src1, count0, count1, size, trans)[count0 * size + i * size + j] == At(src1, i * size + j)
    ensures Fused9Output(src0, src1, scale, bias, count0, count1, size, trans)[count0 * size + i * size + j]
         == Formulas.Fused9(At(src1, i * size + j), At(scale, count0 + i), At(bias, count0 + i))
  {
    var cat := Concat(src0, src1, count0, count1, size, trans);
    assert cat == src0 + src1;
    RowInside(i, j, size, count1);
    assert count0 * size + i * size + j == (count0 + i) * size + j;
    PerChannelPlacement(cat, ChannelMajor, count0 + count1, size, Fused9Cell(scale, bias), count0 + i, j);
  }

  // ---------------------------------------------------------------------
  // Eltwise.

  /** `SimdSynetEltwiseOperationType`. */
  datatype EltwiseOperation = Product | Sum | MaxOp | MinOp

  /** The binary operation of product, max and min. */
  function Combine(op: EltwiseOperation, a: real, b: real): real
  {
    match op
    case Product => a * b
    case Sum => a + b
    case MaxOp => Max(a, b)
    case MinOp => Min(a, b)
  }

  /** Element `j` of source `i`, or zero when there is none. */
  function Source(src: seq<seq<real>>, i: nat, j: nat): real
  {
    if i < |src| then At(src[i], j) else 0.0
  }

  /** The left fold of the first `n >= 2` sources at element `j`, in the order
      the kernels apply it: sources 0 and 1 first, then 2, 3, ... */
  function Fold(op: EltwiseOperation, src: seq<seq<real>>, n: nat, j: nat): real
    requires n >= 2
  {
    if n == 2 then Combine(op, Source(src, 0, j), Source(src, 1, j))
    else Combine(op, Fold(op, src, n - 1, j), Source(src, n - 1, j))
  }

  /** `Σ_{i<n} weight[i]·src[i][j]`. */
  function WeightedSum(src: seq<seq<real>>, weight: seq<real>, n: nat, j: nat): real
  {
    if n == 0 then 0.0 else WeightedSum(src, weight, n - 1, j) + Source(src, n - 1, j) * At(weight, n - 1)
  }

  /** The whole eltwise result: the weighted sum for `Sum`, the fold otherwise. */
  function Eltwise(op: EltwiseOperation, src: seq<seq<real>>, weight: seq<real>, count: nat, size: nat): seq<real>
    requires count >= 2
  {
    seq(size, j requires 0 <= j < size => if op == Sum then WeightedSum(src, weight, count, j) else Fold(op, src, count, j))
  }

  /** The max fold is the maximum of the sources: no source exceeds it and one
      of them attains it. */
  lemma {:induction false} FoldMaxIsMaximum(src: seq<seq<real>>, n: nat, j: nat)
    requires n >= 2
    ensures forall i :: 0 <= i < n ==> Source(src, i, j) <= Fold(MaxOp, src, n, j)
    ensures exists i :: 0 <= i < n && Source(src, i, j) == Fold(MaxOp, src, n, j)
  {
    if n > 2 {
      FoldMaxIsMaximum(src, n - 1, j);
      var i0 :| 0 <= i0 < n - 1 && Source(src, i0, j) == Fold(MaxOp, src, n - 1, j);
      if Fold(MaxOp, src, n, j) == Source(src, n - 1, j) {
        assert Source(src, n - 1, j) == Fold(MaxOp, src, n, j);
      } else {
        assert Source(src, i0, j) == Fold(MaxOp, src, n, j);
      }
    } else {
      assert Source(src, 0, j) == Fold(MaxOp, src, n, j) || Source(src, 1, j) == Fold(MaxOp, src, n, j);
    }
  }

  /** The min fold is the minimum of the sources. */
  lemma {:induction false} FoldMinIsMinimum(src: seq<seq<real>>, n: nat, j: nat)
    requires n >= 2
    ensures forall i :: 0 <= i < n ==> Fold(MinOp, src, n, j) <= Source(src, i, j)
    ensures exists i :: 0 <= i < n && Source(src, i, j) == Fold(MinOp, src, n, j)
  {
    if n > 2 {
      FoldMinIsMinimum(src, n - 1, j);
      var i0 :| 0 <= i0 < n - 1 && Source(src, i0, j) == Fold(MinOp, src, n - 1, j);
      if Fold(MinOp, src, n, j) == Source(src, n - 1, j) {
        assert Source(src, n - 1, j) == Fold(MinOp, src, n, j);
      } else {
        assert Source(src, i0, j) == Fold(MinOp, src, n, j);
      }
    } else {
      assert Source(src, 0, j) == Fold(MinOp, src, n, j) || Source(src, 1, j) == Fold(MinOp, src, n, j);
    }
  }

  /** `Π_{i<n} src[i][j]`. */
  function ProductOf(src: seq<seq<real>>, n: nat, j: nat): real
  {
    if n == 0 then 1.0 else ProductOf(src, n - 1, j) * Source(src, n - 1, j)
  }

  /** The product fold is the product of all sources. */
  lemma {:induction false} FoldProductIsProduct(src: seq<seq<real>>, n: nat, j: nat)
    requires n >= 2
    ensures Fold(Product, src, n, j) == ProductOf(src, n, j)
  {
    if n > 2 {
      FoldProductIsProduct(src, n - 1, j);
    } else {
      assert ProductOf(src, 1, j) == Source(src, 0, j);
    }
  }

  // ---------------------------------------------------------------------
  // Inner product.

  /** `Σ_{lo<=j<hi} src[j]·weight[off+j]`. */
  function Dot(src: seq<real>, weight: seq<real>, off: nat, lo: nat, hi: nat): real
    decreases hi
  {
    if hi <= lo then 0.0 else Dot(src, weight, off, lo, hi - 1) + At(src, hi - 1) * At(weight, off + hi - 1)
  }

  /** The bias of output `i`, zero when there is no bias. */
  function BiasOf(bias: Option<seq<real>>, i: nat): real
  {
    if bias.Some? then At(bias.value, i) else 0.0
  }

  /** `dst[i] = Σ_j src[j]·weight[i·size+j] + (bias ? bias[i] : 0)`. */
  function InnerProduct(src: seq<real>, weight: seq<real>, bias: Option<seq<real>>, count: nat, size: nat): seq<real>
  {
    seq(count, i requires 0 <= i < count => Dot(src, weight, i * size, 0, size) + BiasOf(bias, i))
  }

  /** A dot product over `[lo, hi)` splits at any `mid` in between. */
  lemma {:induction false} DotSplit(src: seq<real>, weight: seq<real>, off: nat, lo: nat, mid: nat, hi: nat)
    requires lo <= mid <= hi
    ensures Dot(src, weight, off, lo, hi) == Dot(src, weight, off, lo, mid) + Dot(src, weight, off, mid, hi)
    decreases hi
  {
    if hi > mid {
      DotSplit(src, weight, off, lo, mid, hi - 1);
    }
  }

  /** The partial sum of lane `r` of the scalar kernel: the terms at
      `r, r+4, r+8, ...` below `4·m`. */
  function Strided(src: seq<real>, weight: seq<real>, off: nat, r: nat, m: nat): real
  {
    if m == 0 then 0.0 else Strided(src, weight, off, r, m - 1) + At(src, 4 * (m - 1) + r) * At(weight, off + 4 * (m - 1) + r)
  }

  /** The four strided partial sums add up to the dot product of the first
      `4·m` terms. */
  lemma {:induction false} StridedSumsAddUp(src: seq<real>, weight: seq<real>, off: nat, m: nat)
    ensures Strided(src, weight, off, 0, m) + Strided(src, weight, off, 1, m)
          + Strided(src, weight, off, 2, m) + Strided(src, weight, off, 3, m)
         == Dot(src, weight, off, 0, 4 * m)
  {
    if m > 0 {
      StridedSumsAddUp(src, weight, off, m - 1);
      var b := 4 * (m - 1);
      assert Dot(src, weight, off, 0, b + 4) == Dot(src, weight, off, 0, b + 3) + At(src, b + 3) * At(weight, off + b + 3);
      assert Dot(src, weight, off, 0, b + 3) == Dot(src, weight, off, 0, b + 2) + At(src, b + 2) * At(weight, off + b + 2);
      assert Dot(src, weight, off, 0, b + 2) == Dot(src, weight, off, 0, b + 1) + At(src, b + 1) * At(weight, off + b + 1);
      assert Dot(src, weight, off, 0, b + 1) == Dot(src, weight, off, 0, b) + At(src, b) * At(weight, off + b);
    }
  }

  // ---------------------------------------------------------------------
  // Cross-channel local response normalization.

  function Square(x: real): real { x * x }

  /** `Σ_{lo<=c<hi} src[off + c·stride]²`. */
  function SquareSum(src: seq<real>, off: nat, stride: nat, lo: nat, hi: nat): real
    decreases hi
  {
    if hi <= lo then 0.0 else SquareSum(src, off, stride, lo, hi - 1) + Square(At(src, off + (hi - 1) * stride))
  }

  /** The channels `c` with `|c - i| <= half` and `0 <= c < count`. */
  function WindowLo(half: nat, i: int): nat { if i - half > 0 then i - half else 0 }
  function WindowHi(half: nat, count: nat, i: int): nat
  {
    if i + half + 1 <= 0 then 0 else if i + half + 1 < count then i + half + 1 else count
  }

  /** The sum of squares over the window of channel `i`; channel `c` of the
      tensor is at `off + c·stride`. */
  function Window(src: seq<real>, half: nat, count: nat, off: nat, stride: nat, i: int): real
  {
    SquareSum(src, off, stride, WindowLo(half, i), WindowHi(half, count, i))
  }

  /** Rows `row(0), row(1), ..., row(n-1)` one after the other. */
  function Stack(row: nat -> seq<real>, n: nat): seq<real>
  {
    if n == 0 then [] else Stack(row, n - 1) + row(n - 1)
  }

  /** With rows of width `w`, cell `t` of row `r` is cell `r·w + t` of the
      stack. */
  lemma {:induction false} StackAt(row: nat -> seq<real>, w: nat, n: nat, r: nat, t: nat)
    requires forall q :: 0 <= q < n ==> |row(q)| == w
    requires r < n && t < w
    ensures |Stack(row, n)| == w * n && r * w + t < w * n && Stack(row, n)[r * w + t] == row(r)[t]
  {
    StackLength(row, w, n);
    RowInside(r, t, w, n);
    if r == n - 1 {
      StackLast(row, w, n, t);
    } else {
      StackAt(row, w, n - 1, r, t);
      StackKeeps(row, w, n, r * w + t);
    }
  }

  /** The last row of the stack is its tail. */
  lemma StackLast(row: nat -> seq<real>, w: nat, n: nat, t: nat)
    requires forall q :: 0 <= q < n ==> |row(q)| == w
    requires 0 < n && t < w
    ensures (n - 1) * w + t < |Stack(row, n)| && Stack(row, n)[(n - 1) * w + t] == row(n - 1)[t]
  {
    StackLength(row, w, n - 1);
    assert (n - 1) * w == w * (n - 1);
    assert Stack(row, n) == Stack(row, n - 1) + row(n - 1);
  }

  /** Adding a row keeps the rows before it. */
  lemma StackKeeps(row: nat -> seq<real>, w: nat, n: nat, k: nat)
    requires 0 < n && k < |Stack(row, n - 1)|
    ensures k < |Stack(row, n)| && Stack(row, n)[k] == Stack(row, n - 1)[k]
  {
    assert Stack(row, n) == Stack(row, n - 1) + row(n - 1);
  }

  /** One normalized element: `x·pow(k0 + k1·window, k2)`. */
  function Normalize(x: real, window: real, k0: real, k1: real, k2: real, pow: (real, real) -> real): real
  {
    x * pow(k0 + k1 * window, k2)
  }

  /** The channel-last normalization of position `j`: channel `i` is scaled
      by its window over the row. */
  function LrnLastRow(src: seq<real>, half: nat, count: nat, k0: real, k1: real, k2: real, pow: (real, real) -> real, j: nat): seq<real>
  {
    seq(count, i requires 0 <= i < count => Normalize(At(src, j * count + i), Window(src, half, count, j * count, 1, i), k0, k1, k2, pow))
  }

  /** The channel-major normalization of channel `i`: position `t` is scaled by
      its window down column `t`. */
  function LrnMajorRow(src: seq<real>, half: nat, count: nat, size: nat, k0: real, k1: real, k2: real, pow: (real, real) -> real, i: nat): seq<real>
  {
    seq(size, t requires 0 <= t < size => Normalize(At(src, i * size + t), Window(src, half, count, t, size, i), k0, k1, k2, pow))
  }

  /** `dst = src·pow(k0 + k1·window, k2)` for every element; channel-last rows
      hold the `count` channels of one position, channel-major rows one
      channel. */
  function Lrn(src: seq<real>, half: nat, count: nat, size: nat, k0: real, k1: real, k2: real,
               pow: (real, real) -> real, trans: bool): seq<real>
  {
    if trans then Stack((j: nat) => LrnLastRow(src, half, count, k0, k1, k2, pow, j), size)
    else Stack((i: nat) => LrnMajorRow(src, half, count, size, k0, k1, k2, pow, i), count)
  }

  /** Channel-last cell `(j, i)`, with its window over the row of position `j`. */
  lemma LrnCellLast(src: seq<real>, half: nat, count: nat, size: nat, k0: real, k1: real, k2: real,
                    pow: (real, real) -> real, j: nat, i: nat)
    requires i < count && j < size
    ensures var l := Lrn(src, half, count, size, k0, k1, k2, pow, true);
            |l| == count * size && j * count + i < |l| &&
            l[j * count + i] == Normalize(At(src, j * count + i), Window(src, half, count, j * count, 1, i), k0, k1, k2, pow)
  {
    var row := (q: nat) => LrnLastRow(src, half, count, k0, k1, k2, pow, q);
    assert Lrn(src, half, count, size, k0, k1, k2, pow, true) == Stack(row, size);
    StackAt(row, count, size, j, i);
    assert row(j) == LrnLastRow(src, half, count, k0, k1, k2, pow, j);
  }

  /** Channel-major cell `(i, t)`, with its window down column `t`. */
  lemma LrnCellMajor(src: seq<real>, half: nat, count: nat, size: nat, k0: real, k1: real, k2: real,
                     pow: (real, real) -> real, i: nat, t: nat)
    requires i < count && t < size
    ensures var l := Lrn(src, half, count, size, k0, k1, k2, pow, false);
            |l| == count * size && i * size + t < |l| &&
            l[i * size + t] == Normalize(At(src, i * size + t), Window(src, half, count, t, size, i), k0, k1, k2, pow)
  {
    var row := (q: nat) => LrnMajorRow(src, half, count, size, k0, k1, k2, pow, q);
    assert Lrn(src, half, count, size, k0, k1, k2, pow, false) == Stack(row, count);
    StackAt(row, size, count, i, t);
    assert row(i) == LrnMajorRow(src, half, count, size, k0, k1, k2, pow, i);
  }

  /** Cell `(j, i)` of `l` is the channel-last normalization of channel `i` at
      position `j`. */
  ghost predicate LrnLastAt(l: seq<real>, src: seq<real>, half: nat, count: nat, k0: real, k1: real, k2: real,
                            pow: (real, real) -> real, j: nat, i: nat)
  {
    j * count + i < |l| && l[j * count + i] == Normalize(At(src, j * count + i), Window(src, half, count, j * count, 1, i), k0, k1, k2, pow)
  }

  /** Cell `(i, t)` of `l` is the channel-major normalization of channel `i` at
      position `t`. */
  ghost predicate LrnMajorAt(l: seq<real>, src: seq<real>, half: nat, count: nat, size: nat, k0: real, k1: real, k2: real,
                             pow: (real, real) -> real, i: nat, t: nat)
  {
    i * size + t < |l| && l[i * size + t] == Normalize(At(src, i * size + t), Window(src, half, count, t, size, i), k0, k1, k2, pow)
  }

  /** Either way the normalization has `count·size` elements. */
  lemma LrnLength(src: seq<real>, half: nat, count: nat, size: nat, k0: real, k1: real, k2: real,
                  pow: (real, real) -> real, trans: bool)
    ensures |Lrn(src, half, count, size, k0, k1, k2, pow, trans)| == count * size
  {
    if trans {
      StackLength((j: nat) => LrnLastRow(src, half, count, k0, k1, k2, pow, j), count, size);
    } else {
      StackLength((i: nat) => LrnMajorRow(src, half, count, size, k0, k1, k2, pow, i), size, count);
    }
  }

  /** A stack of `n` rows of width `w` has `w·n` cells. */
  lemma {:induction false} StackLength(row: nat -> seq<real>, w: nat, n: nat)
    requires forall q :: 0 <= q < n ==> |row(q)| == w
    ensures |Stack(row, n)| == w * n
  {
    if n > 0 {
      StackLength(row, w, n - 1);
    }
  }

  /** Removing the first term of a square sum. */
  lemma {:induction false} SquareSumDropFirst(src: seq<real>, off: nat, stride: nat, lo: nat, hi: nat)
    requires lo < hi
    ensures SquareSum(src, off, stride, lo, hi) == Square(At(src, off + lo * stride)) + SquareSum(src, off, stride, lo + 1, hi)
    decreases hi
  {
    if hi - 1 > lo {
      SquareSumDropFirst(src, off, stride, lo, hi - 1);
    }
  }

  /** The running-sum recurrence: moving from channel `i-1` to channel `i`
      adds the square of channel `i+half` when it exists and removes that of
      channel `i-half-1` when it exists. */
  lemma WindowSlide(src: seq<real>, half: nat, count: nat, off: nat, stride: nat, i: nat)
    requires i < count
    ensures Window(src, half, count, off, stride, i)
         == Window(src, half, count, off, stride, i - 1)
          + (if i + half < count then Square(At(src, off + (i + half) * stride)) else 0.0)
          - (if i > half then Square(At(src, off + (i - half - 1) * stride)) else 0.0)
  {
    var lo0, hi0 := WindowLo(half, i - 1), WindowHi(half, count, i - 1);
    var lo1, hi1 := WindowLo(half, i), WindowHi(half, count, i);
    var mid := SquareSum(src, off, stride, lo0, hi1);
    if i + half < count {
      assert hi1 == hi0 + 1 && hi0 == i + half;
      assert mid == SquareSum(src, off, stride, lo0, hi0) + Square(At(src, off + (i + half) * stride));
    } else {
      assert hi1 == hi0;
    }
    if i > half {
      assert lo1 == lo0 + 1 && lo0 == i - half - 1;
      SquareSumDropFirst(src, off, stride, lo0, hi1);
    } else {
      assert lo1 == lo0;
    }
  }

  /** With `count >= 2·half+1`, the windows of the first `half+1` channels
      start at channel 0 and the windows of the last `half+1` end at the last
      channel: the scalar channel-last loop never leaves the row. */
  lemma WindowEdges(half: nat, count: nat, i: nat)
    requires count >= 2 * half + 1 && i < count
    ensures i <= half ==> WindowLo(half, i) == 0 && WindowHi(half, count, i) == i + half + 1
    ensures i + half >= count ==> WindowHi(half, count, i) == count
  {
  }

  // ---------------------------------------------------------------------
  // Max pooling.

  /** `-FLT_MAX`, where every max accumulator starts. */
  const Bottom: real := -340282346638528859811704183484516925440.0

  /** The first source row (or column) of output `p`: `max(0, p·stride - pad)`. */
  function WindowStart(p: nat, stride: nat, pad: nat): nat
  {
    if p * stride >= pad then p * stride - pad else 0
  }

  /** One past the last source row of output `p`: `min(p·stride - pad + kernel,
      extent)`, never below the start (an empty window is empty, whatever the
      padding). */
  function WindowEnd(p: nat, stride: nat, pad: nat, kernel: nat, extent: nat): (r: nat)
    ensures WindowStart(p, stride, pad) <= r
    ensures r > WindowStart(p, stride, pad) ==> r <= extent && r + pad <= p * stride + kernel
  {
    var e := p * stride + kernel - pad;
    if e <= WindowStart(p, stride, pad) then WindowStart(p, stride, pad)
    else if e < extent then e else if extent >= WindowStart(p, stride, pad) then extent else WindowStart(p, stride, pad)
  }

  /** The window of output `p` holds exactly the source rows that the kernel,
      placed at `p·stride - pad`, covers and that exist. */
  lemma WindowRows(p: nat, stride: nat, pad: nat, kernel: nat, extent: nat, h: nat)
    ensures WindowStart(p, stride, pad) <= h < WindowEnd(p, stride, pad, kernel, extent)
        <==> p * stride <= h + pad < p * stride + kernel && h < extent
  {
  }

  /** `size_t` arithmetic wraps modulo 2^64; `ptrdiff_t` reads the upper half
      of that range as negative. */
  const SizeRange: nat := 0x1_0000_0000_0000_0000
  const SignedRange: nat := 0x8000_0000_0000_0000

  /** The window start as the kernel computes it: `p·stride - pad` in
      `size_t`, then `max<ptrdiff_t>(0, ·)`. */
  function WindowStartAsWritten(p: nat, stride: nat, pad: nat): nat
  {
    var start := (p * stride - pad) % SizeRange;
    if start >= SignedRange then 0 else start
  }

  /** The window end as the kernel computes it: `min(start + kernel, extent)`
      on the wrapped `size_t` start, before the start is clamped. */
  function WindowEndAsWritten(p: nat, stride: nat, pad: nat, kernel: nat, extent: nat): nat
  {
    var e := ((p * stride - pad) % SizeRange + kernel) % SizeRange;
    if e < extent then e else extent
  }

  /** While the padding does not pass the far edge of the kernel, the wrapped
      arithmetic visits exactly the rows of the corrected window. */
  lemma WindowAsWrittenAgrees(p: nat, stride: nat, pad: nat, kernel: nat, extent: nat, h: nat)
    requires p * stride + kernel < SignedRange && pad <= p * stride + kernel
    ensures WindowStartAsWritten(p, stride, pad) == WindowStart(p, stride, pad)
    ensures WindowStartAsWritten(p, stride, pad) <= h < WindowEndAsWritten(p, stride, pad, kernel, extent)
        <==> WindowStart(p, stride, pad) <= h < WindowEnd(p, stride, pad, kernel, extent)
  {
    var x := p * stride;
    if x >= pad {
      assert (x - pad) % SizeRange == x - pad;
      assert (x - pad + kernel) % SizeRange == x - pad + kernel;
    } else {
      assert (x - pad) % SizeRange == x - pad + SizeRange;
      assert (x - pad + SizeRange + kernel) % SizeRange == x - pad + kernel;
    }
  }

  /** Once the padding passes the far edge of the kernel, `start + kernel`
      wraps back above every extent: the kernel folds the whole column of
      rows `[0, extent)` where the output should see an empty window. */
  lemma WindowAsWrittenWraps(p: nat, stride: nat, pad: nat, kernel: nat, extent: nat)
    requires p * stride + kernel < pad < SignedRange && extent < SignedRange
    ensures WindowStartAsWritten(p, stride, pad) == 0
    ensures WindowEndAsWritten(p, stride, pad, kernel, extent) == extent
    ensures WindowEnd(p, stride, pad, kernel, extent) == WindowStart(p, stride, pad)
  {
    var x := p * stride;
    assert (x - pad) % SizeRange == x - pad + SizeRange;
    assert (x - pad + SizeRange + kernel) % SizeRange == x - pad + SizeRange + kernel;
  }

  /** A source tensor as a function of (channel, row, column). */
  type Image = (nat, nat, nat) -> real

  /** Channel-last source: `src[(h·srcW + w)·srcC + c]`. */
  function HwcImage(src: seq<real>, srcC: nat, srcW: nat): Image
  {
    (c, h, w) => At(src, (h * srcW + w) * srcC + c)
  }

  /** Channel-major source: `src[(c·srcH + h)·srcW + w]`. */
  function ChwImage(src: seq<real>, srcH: nat, srcW: nat): Image
  {
    (c, h, w) => At(src, (c * srcH + h) * srcW + w)
  }

  /** Row `h` of a window folded into `acc`, columns `w0 .. w-1` in order. */
  function FoldCols(img: Image, c: nat, h: nat, acc: real, w0: nat, w: nat): real
    decreases w
  {
    if w <= w0 then acc else Max(FoldCols(img, c, h, acc, w0, w - 1), img(c, h, w - 1))
  }

  /** Rows `h0 .. h-1` of a window folded into `acc`, row by row. */
  function FoldRows(img: Image, c: nat, acc: real, h0: nat, h: nat, w0: nat, w1: nat): real
    decreases h
  {
    if h <= h0 then acc else FoldCols(img, c, h - 1, FoldRows(img, c, acc, h0, h - 1, w0, w1), w0, w1)
  }

  /** The pooled value of channel `c` at output `(ph, pw)`. */
  function PoolAt(img: Image, c: nat, ph: nat, pw: nat, kernelY: nat, kernelX: nat, strideY: nat, strideX: nat,
                  padY: nat, padX: nat, srcH: nat, srcW: nat): real
  {
    FoldRows(img, c, Bottom,
      WindowStart(ph, strideY, padY), WindowEnd(ph, strideY, padY, kernelY, srcH),
      WindowStart(pw, strideX, padX), WindowEnd(pw, strideX, padX, kernelX, srcW))
  }

  /** Channel-last output: `dst[(ph·dstW + pw)·srcC + c]`. */
  function PoolHwc(src: seq<real>, srcC: nat, srcH: nat, srcW: nat, kernelY: nat, kernelX: nat, strideY: nat, strideX: nat,
                   padY: nat, padX: nat, dstH: nat, dstW: nat): seq<real>
  {
    seq(dstH * dstW * srcC, e requires 0 <= e < dstH * dstW * srcC =>
      var o := Quot(e, srcC);
      PoolAt(HwcImage(src, srcC, srcW), Rem(e, srcC), Quot(o, dstW), Rem(o, dstW), kernelY, kernelX, strideY, strideX, padY, padX, srcH, srcW))
  }

  /** Channel-major output: `dst[(c·dstH + ph)·dstW + pw]`. */
  function PoolChw(src: seq<real>, srcC: nat, srcH: nat, srcW: nat, kernelY: nat, kernelX: nat, strideY: nat, strideX: nat,
                   padY: nat, padX: nat, dstH: nat, dstW: nat): seq<real>
  {
    seq(srcC * dstH * dstW, e requires 0 <= e < srcC * dstH * dstW =>
      var o := Rem(e, dstH * dstW);
      PoolAt(ChwImage(src, srcH, srcW), Quot(e, dstH * dstW), Quot(o, dstW), Rem(o, dstW), kernelY, kernelX, strideY, strideX, padY, padX, srcH, srcW))
  }

  /** The window fold is the maximum of the window and of `acc`: nothing in
      the window exceeds it, and it is `acc` or a cell of the window. */
  lemma {:induction false} FoldIsWindowMax(img: Image, c: nat, acc: real, h0: nat, h1: nat, w0: nat, w1: nat)
    ensures acc <= FoldRows(img, c, acc, h0, h1, w0, w1)
    ensures forall h, w :: h0 <= h < h1 && w0 <= w < w1 ==> img(c, h, w) <= FoldRows(img, c, acc, h0, h1, w0, w1)
    ensures FoldRows(img, c, acc, h0, h1, w0, w1) == acc
         || exists h, w :: h0 <= h < h1 && w0 <= w < w1 && FoldRows(img, c, acc, h0, h1, w0, w1) == img(c, h, w)
    decreases h1
  {
    if h1 > h0 {
      FoldIsWindowMax(img, c, acc, h0, h1 - 1, w0, w1);
      FoldColsIsRowMax(img, c, h1 - 1, FoldRows(img, c, acc, h0, h1 - 1, w0, w1), w0, w1);
    }
  }

  /** One row of the fold. */
  lemma {:induction false} FoldColsIsRowMax(img: Image, c: nat, h: nat, acc: real, w0: nat, w1: nat)
    ensures acc <= FoldCols(img, c, h, acc, w0, w1)
    ensures forall w :: w0 <= w < w1 ==> img(c, h, w) <= FoldCols(img, c, h, acc, w0, w1)
    ensures FoldCols(img, c, h, acc, w0, w1) == acc
         || exists w :: w0 <= w < w1 && FoldCols(img, c, h, acc, w0, w1) == img(c, h, w)
    decreases w1
  {
    if w1 > w0 {
      FoldColsIsRowMax(img, c, h, acc, w0, w1 - 1);
    }
  }

  /** An empty window leaves the accumulator untouched: the output is `-FLT_MAX`. */
  lemma EmptyWindowIsBottom(img: Image, c: nat, h0: nat, h1: nat, w0: nat, w1: nat)
    requires h1 <= h0 || w1 <= w0
    ensures FoldRows(img, c, Bottom, h0, h1, w0, w1) == Bottom
  {
    if h1 > h0 {
      EmptyRowsKeepAcc(img, c, Bottom, h0, h1, w0, w1);
    }
  }

  /** Rows with no columns keep the accumulator. */
  lemma {:induction false} EmptyRowsKeepAcc(img: Image, c: nat, acc: real, h0: nat, h1: nat, w0: nat, w1: nat)
    requires w1 <= w0
    ensures FoldRows(img, c, acc, h0, h1, w0, w1) == acc
    decreases h1
  {
    if h1 > h0 {
      EmptyRowsKeepAcc(img, c, acc, h0, h1 - 1, w0, w1);
    }
  }

  /** Folds over two images that agree on the window are equal. */
  lemma {:induction false} FoldAgrees(a: Image, ca: nat, b: Image, cb: nat, acc: real, h0: nat, h1: nat, w0: nat, w1: nat)
    requires forall h, w :: h0 <= h < h1 && w0 <= w < w1 ==> a(ca, h, w) == b(cb, h, w)
    ensures FoldRows(a, ca, acc, h0, h1, w0, w1) == FoldRows(b, cb, acc, h0, h1, w0, w1)
    decreases h1
  {
    if h1 > h0 {
      FoldAgrees(a, ca, b, cb, acc, h0, h1 - 1, w0, w1);
      FoldColsAgree(a, ca, b, cb, h1 - 1, FoldRows(a, ca, acc, h0, h1 - 1, w0, w1), w0, w1);
    }
  }

  lemma {:induction false} FoldColsAgree(a: Image, ca: nat, b: Image, cb: nat, h: nat, acc: real, w0: nat, w1: nat)
    requires forall w :: w0 <= w < w1 ==> a(ca, h, w) == b(cb, h, w)
    ensures FoldCols(a, ca, h, acc, w0, w1) == FoldCols(b, cb, h, acc, w0, w1)
    decreases w1
  {
    if w1 > w0 {
      FoldColsAgree(a, ca, b, cb, h, acc, w0, w1 - 1);
    }
  }

  /** Cell `(c, h, w)` holds the same value in channel-last `hwc` and
      channel-major `chw` storage. */
  predicate SameCell(hwc: seq<real>, chw: seq<real>, srcC: nat, srcH: nat, srcW: nat, c: nat, h: nat, w: nat)
  {
    HwcImage(hwc, srcC, srcW)(c, h, w) == ChwImage(chw, srcH, srcW)(c, h, w)
  }

  /** `hwc` (channel-last) and `chw` (channel-major) store the same
      `srcC × srcH × srcW` tensor. */
  predicate SameTensor(hwc: seq<real>, chw: seq<real>, srcC: nat, srcH: nat, srcW: nat)
  {
    forall c: nat, h: nat, w: nat :: c < srcC && h < srcH && w < srcW ==> SameCell(hwc, chw, srcC, srcH, srcW, c, h, w)
  }

  /** Channel-last and channel-major storage of the same tensor pool to the
      same value at every (channel, output position). */
  lemma PoolLayoutsAgree(hwc: seq<real>, chw: seq<real>, srcC: nat, srcH: nat, srcW: nat, kernelY: nat, kernelX: nat,
                         strideY: nat, strideX: nat, padY: nat, padX: nat, dstH: nat, dstW: nat, c: nat, ph: nat, pw: nat)
    requires SameTensor(hwc, chw, srcC, srcH, srcW)
    requires c < srcC && ph < dstH && pw < dstW
    ensures var last := PoolHwc(hwc, srcC, srcH, srcW, kernelY, kernelX, strideY, strideX, padY, padX, dstH, dstW);
            var major := PoolChw(chw, srcC, srcH, srcW, kernelY, kernelX, strideY, strideX, padY, padX, dstH, dstW);
            (ph * dstW + pw) * srcC + c < |last| && (c * dstH + ph) * dstW + pw < |major| &&
            At(last, (ph * dstW + pw) * srcC + c) == At(major, (c * dstH + ph) * dstW + pw)
  {
    PoolAtAgrees(hwc, chw, srcC, srcH, srcW, kernelY, kernelX, strideY, strideX, padY, padX, c, ph, pw);
    PoolOutputsAgree(hwc, chw, srcC, srcH, srcW, kernelY, kernelX, strideY, strideX, padY, padX, dstH, dstW, c, ph, pw);
  }

  /** Equal pooled values land at the matching cells of the two outputs. */
  lemma PoolOutputsAgree(hwc: seq<real>, chw: seq<real>, srcC: nat, srcH: nat, srcW: nat, kernelY: nat, kernelX: nat,
                         strideY: nat, strideX: nat, padY: nat, padX: nat, dstH: nat, dstW: nat, c: nat, ph: nat, pw: nat)
    requires PoolAt(HwcImage(hwc, srcC, srcW), c, ph, pw, kernelY, kernelX, strideY, strideX, padY, padX, srcH, srcW)
          == PoolAt(ChwImage(chw, srcH, srcW), c, ph, pw, kernelY, kernelX, strideY, strideX, padY, padX, srcH, srcW)
    requires c < srcC && ph < dstH && pw < dstW
    ensures (ph * dstW + pw) * srcC + c < dstH * dstW * srcC
    ensures (c * dstH + ph) * dstW + pw < srcC * dstH * dstW
    ensures At(PoolHwc(hwc, srcC, srcH, srcW, kernelY, kernelX, strideY, strideX, padY, padX, dstH, dstW), (ph * dstW + pw) * srcC + c)
         == At(PoolChw(chw, srcC, srcH, srcW, kernelY, kernelX, strideY, strideX, padY, padX, dstH, dstW), (c * dstH + ph) * dstW + pw)
  {
    PoolHwcAt(hwc, srcC, srcH, srcW, kernelY, kernelX, strideY, strideX, padY, padX, dstH, dstW, c, ph, pw);
    PoolChwAt(chw, srcC, srcH, srcW, kernelY, kernelX, strideY, strideX, padY, padX, dstH, dstW, c, ph, pw);
  }

  /** The pooled value of one channel at one output position does not depend
      on the storage order. */
  lemma PoolAtAgrees(hwc: seq<real>, chw: seq<real>, srcC: nat, srcH: nat, srcW: nat, kernelY: nat, kernelX: nat,
                     strideY: nat, strideX: nat, padY: nat, padX: nat, c: nat, ph: nat, pw: nat)
    requires SameTensor(hwc, chw, srcC, srcH, srcW)
    requires c < srcC
    ensures PoolAt(HwcImage(hwc, srcC, srcW), c, ph, pw, kernelY, kernelX, strideY, strideX, padY, padX, srcH, srcW)
         == PoolAt(ChwImage(chw, srcH, srcW), c, ph, pw, kernelY, kernelX, strideY, strideX, padY, padX, srcH, srcW)
  {
    var h0, h1 := WindowStart(ph, strideY, padY), WindowEnd(ph, strideY, padY, kernelY, srcH);
    var w0, w1 := WindowStart(pw, strideX, padX), WindowEnd(pw, strideX, padX, kernelX, srcW);
    ImagesAgree(hwc, chw, srcC, srcH, srcW, c, h0, h1, w0, w1);
    FoldAgrees(HwcImage(hwc, srcC, srcW), c, ChwImage(chw, srcH, srcW), c, Bottom, h0, h1, w0, w1);
  }

  /** Inside the source, the two storages show the same image. */
  lemma ImagesAgree(hwc: seq<real>, chw: seq<real>, srcC: nat, srcH: nat, srcW: nat, c: nat, h0: nat, h1: nat, w0: nat, w1: nat)
    requires SameTensor(hwc, chw, srcC, srcH, srcW)
    requires c < srcC && (h0 < h1 ==> h1 <= srcH) && (w0 < w1 ==> w1 <= srcW)
    ensures forall h, w :: h0 <= h < h1 && w0 <= w < w1 ==> HwcImage(hwc, srcC, srcW)(c, h, w) == ChwImage(chw, srcH, srcW)(c, h, w)
  {
    forall h, w | h0 <= h < h1 && w0 <= w < w1
      ensures HwcImage(hwc, srcC, srcW)(c, h, w) == ChwImage(chw, srcH, srcW)(c, h, w)
    {
      assert SameCell(hwc, chw, srcC, srcH, srcW, c, h, w);
    }
  }

  /** Channel `c` of output `(ph, pw)` sits at `(ph·dstW + pw)·srcC + c` of the
      channel-last output. */
  lemma PoolHwcAt(src: seq<real>, srcC: nat, srcH: nat, srcW: nat, kernelY: nat, kernelX: nat, strideY: nat, strideX: nat,
                  padY: nat, padX: nat, dstH: nat, dstW: nat, c: nat, ph: nat, pw: nat)
    requires c < srcC && ph < dstH && pw < dstW
    ensures (ph * dstW + pw) * srcC + c < dstH * dstW * srcC
    ensures At(PoolHwc(src, srcC, srcH, srcW, kernelY, kernelX, strideY, strideX, padY, padX, dstH, dstW), (ph * dstW + pw) * srcC + c)
         == PoolAt(HwcImage(src, srcC, srcW), c, ph, pw, kernelY, kernelX, strideY, strideX, padY, padX, srcH, srcW)
  {
    var o := ph * dstW + pw;
    RowInside(ph, pw, dstW, dstH);
    RowInside(o, c, srcC, dstH * dstW);
    QuotRem(o * srcC + c, o, c, srcC);
    QuotRem(o, ph, pw, dstW);
  }

  /** Channel `c` of output `(ph, pw)` sits at `(c·dstH + ph)·dstW + pw` of the
      channel-major output. */
  lemma PoolChwAt(src: seq<real>, srcC: nat, srcH: nat, srcW: nat, kernelY: nat, kernelX: nat, strideY: nat, strideX: nat,
                  padY: nat, padX: nat, dstH: nat, dstW: nat, c: nat, ph: nat, pw: nat)
    requires c < srcC && ph < dstH && pw < dstW
    ensures (c * dstH + ph) * dstW + pw < srcC * dstH * dstW
    ensures At(PoolChw(src, srcC, srcH, srcW, kernelY, kernelX, strideY, strideX, padY, padX, dstH, dstW), (c * dstH + ph) * dstW + pw)
         == PoolAt(ChwImage(src, srcH, srcW), c, ph, pw, kernelY, kernelX, strideY, strideX, padY, padX, srcH, srcW)
  {
    var o := ph * dstW + pw;
    RowInside(ph, pw, dstW, dstH);
    RowInside(c, o, dstH * dstW, srcC);
    assert (c * dstH + ph) * dstW + pw == c * (dstH * dstW) + o;
    QuotRem(c * (dstH * dstW) + o, c, o, dstH * dstW);
    QuotRem(o, ph, pw, dstW);
  }

  // ---------------------------------------------------------------------
  // Range restriction.

  /** `dst[i] = min(max(lower, src[i]), upper)`. */
  function RestrictRange(src: seq<real>, lower: real, upper: real): seq<real>
  {
    seq(|src|, i requires 0 <= i < |src| => Restrict(src[i], lower, upper))
  }

  /** With `lower <= upper`, every result lies in `[lower, upper]` and
      restricting twice is restricting once. */
  lemma RestrictRangeProperties(src: seq<real>, lower: real, upper: real)
    requires lower <= upper
    ensures forall i :: 0 <= i < |src| ==> lower <= RestrictRange(src, lower, upper)[i] <= upper
    ensures RestrictRange(RestrictRange(src, lower, upper), lower, upper) == RestrictRange(src, lower, upper)
  {
    forall i | 0 <= i < |src| {
      RestrictProperties(src[i], lower, upper);
    }
  }
}
