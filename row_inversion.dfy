/** InvertY.Apply: turns an image upside down by exchanging its rows in place. */
module RowInversion {
  import opened Pixels

  /** Where the byte at `p` comes from once the rows of `stride` bytes between 0
      and the start `lastRow` of the last row are put in reverse order: the first
      and the last row trade places and the rows between are reversed the same way. */
  function MirrorOf(p: int, stride: int, lastRow: int): (q: int)
    requires stride > 0 && WholePixels(lastRow, stride) && 0 <= p < lastRow + stride
    ensures 0 <= q < lastRow + stride
    decreases p
  {
    if p < stride then lastRow + p
    else if p >= lastRow then p - lastRow
    else
      OuterRows(lastRow, stride);
      stride + MirrorOf(p - stride, stride, lastRow - 2 * stride)
  }

  /** A last row that starts after the first row leaves room for both: what lies
      between them is again whole rows. */
  lemma OuterRows(lastRow: int, stride: int)
    requires stride > 0 && WholePixels(lastRow, stride) && lastRow > stride
    ensures lastRow >= 2 * stride && WholePixels(lastRow - 2 * stride, stride)
  {
    assert WholePixels(stride, stride) by {
      assert OnCursor(0, 0, stride);
    }
    BoundaryGap(stride, lastRow, stride);
    DropPixel(lastRow, stride);
    DropPixel(lastRow - stride, stride);
  }

  /** The source's two cursors: the row at `from` and the row at `to`, at the
      same distance from the two ends, are each other's mirror image byte for byte. */
  lemma {:induction false} RowsPaired(from: int, to: int, stride: int, lastRow: int)
    requires stride > 0 && WholePixels(lastRow, stride) && WholePixels(from, stride)
    requires from + to == lastRow && from <= to
    ensures forall p | from <= p < from + stride :: MirrorOf(p, stride, lastRow) == p - from + to
    ensures forall p | to <= p < to + stride :: MirrorOf(p, stride, lastRow) == p - to + from
    decreases from
  {
    if from > 0 {
      DropPixel(from, stride);
      if to == stride {
        BoundaryGap(from - stride, stride, stride) by {
          assert OnCursor(stride, 0, stride) by { assert OnCursor(0, 0, stride); }
        }
      }
      OuterRows(lastRow, stride);
      RowsPaired(from - stride, to - stride, stride, lastRow - 2 * stride);
      forall p | from <= p < from + stride
        ensures MirrorOf(p, stride, lastRow) == p - from + to
      {
        assert MirrorOf(p - stride, stride, lastRow - 2 * stride) == p - from + to - stride;
      }
      forall p | to <= p < to + stride
        ensures MirrorOf(p, stride, lastRow) == p - to + from
      {
        assert MirrorOf(p - stride, stride, lastRow - 2 * stride) == p - to + from - stride;
      }
    } else {
      forall p | to <= p < to + stride
        ensures MirrorOf(p, stride, lastRow) == p - to
      {
        if to > 0 && p < stride {
          DropPixel(to, stride);
        }
      }
    }
  }

  /** Reversing the row order twice puts every byte back. */
  lemma {:induction false} MirrorTwice(p: int, stride: int, lastRow: int)
    requires stride > 0 && WholePixels(lastRow, stride) && 0 <= p < lastRow + stride
    ensures MirrorOf(MirrorOf(p, stride, lastRow), stride, lastRow) == p
    decreases p
  {
    if p < stride {
      if lastRow > 0 && lastRow + p < stride {
        DropPixel(lastRow, stride);
      }
    } else if p < lastRow {
      OuterRows(lastRow, stride);
      MirrorTwice(p - stride, stride, lastRow - 2 * stride);
    }
  }

  /** Every multiple of the stride is a row boundary. */
  lemma {:induction false} RowStart(r: nat, stride: int)
    requires stride > 0
    ensures WholePixels(r * stride, stride)
  {
    if r > 0 {
      RowStart(r - 1, stride);
      assert (r - 1) * stride == r * stride - stride;
    }
  }

  lemma MulNonNegative(a: int, b: int)
    requires a >= 0 && b >= 0
    ensures a * b >= 0
  {
  }

  /** The cursor `to` starts after `from` exactly when there are at least two
      rows of positive stride, or a negative stride and no rows at all. */
  lemma LastRowAfterFirst(stride: int, height: int)
    ensures (height - 1) * stride > 0 <==> (stride > 0 && height >= 2) || (stride < 0 && height <= 0)
  {
    if stride > 0 && height >= 2 {
      MulAtLeast(height - 1, stride);
    } else if stride < 0 && height <= 0 {
      MulAtLeast(1 - height, -stride);
      assert (height - 1) * stride == (1 - height) * -stride;
    } else if stride > 0 {
      MulNonNegative(1 - height, stride);
      assert (height - 1) * stride == -((1 - height) * stride);
    } else if stride < 0 {
      MulNonNegative(height - 1, -stride);
      assert (height - 1) * stride == -((height - 1) * -stride);
    }
  }

  /** What the source needs: `new byte[stride]` with a negative stride throws,
      which happens when the last-row offset (height - 1) * stride is positive
      with a negative stride; and when rows are exchanged they lie inside the buffer. */
  predicate Admissible(len: nat, stride: int, height: int)
  {
    (stride < 0 ==> height > 0) &&
    (stride > 0 && height >= 2 ==> height * stride <= len)
  }

  /** The first rows, up to and including the one that starts at `lastRow`,
      in reverse order, and every byte after them kept. */
  function Mirrored(s: seq<byte>, stride: int, lastRow: int): (r: seq<byte>)
    requires stride > 0 && WholePixels(lastRow, stride) && lastRow + stride <= |s|
    ensures |r| == |s|
  {
    seq(|s|, p requires 0 <= p < |s| =>
      if p < lastRow + stride then s[MirrorOf(p, stride, lastRow)] else s[p])
  }

  /** Effect of InvertY.Apply: the first `height` rows of `stride` bytes in
      reverse order and everything after them kept; nothing at all when the
      last row does not start after the first (a single row, no rows, or a
      stride that is not positive). */
  function Inverted(s: seq<byte>, stride: int, height: int): (r: seq<byte>)
    requires Admissible(|s|, stride, height)
    ensures |r| == |s|
  {
    var lastRow := (height - 1) * stride;
    if lastRow <= 0 then s
    else
      LastRowAfterFirst(stride, height);
      RowStart(height - 1, stride);
      assert lastRow + stride == height * stride;
      Mirrored(s, stride, lastRow)
  }

  /** With fewer than two rows or a stride that is not positive, nothing moves. */
  lemma NothingToExchange(s: seq<byte>, stride: int, height: int)
    requires Admissible(|s|, stride, height) && (stride <= 0 || height <= 1)
    ensures Inverted(s, stride, height) == s
  {
    LastRowAfterFirst(stride, height);
  }

  /** Row `r` of the result is row `height - 1 - r` of the input, column by column. */
  lemma RowsReversed(s: seq<byte>, stride: int, height: int, r: nat, c: nat)
    requires Admissible(|s|, stride, height) && stride > 0 && height * stride <= |s|
    requires r < height && c < stride
    ensures 0 <= r * stride && r * stride + c < |s|
    ensures 0 <= (height - 1 - r) * stride && (height - 1 - r) * stride + c < |s|
    ensures Inverted(s, stride, height)[r * stride + c] == s[(height - 1 - r) * stride + c]
  {
    var lastRow, top, bottom := (height - 1) * stride, r * stride, (height - 1 - r) * stride;
    RowOffsets(r, height, stride);
    if height == 1 {
      assert lastRow == 0 && top == 0 && bottom == 0;
    } else {
      LastRowAfterFirst(stride, height);
      RowStart(r, stride);
      RowStart(height - 1 - r, stride);
      RowStart(height - 1, stride);
      var t := Mirrored(s, stride, lastRow);
      assert Inverted(s, stride, height) == t;
      if top <= bottom {
        RowsPaired(top, bottom, stride, lastRow);
      } else {
        RowsPaired(bottom, top, stride, lastRow);
      }
      assert MirrorOf(top + c, stride, lastRow) == bottom + c;
      assert t[top + c] == s[bottom + c];
    }
  }

  /** Distributing the row arithmetic of RowsReversed. */
  lemma RowOffsets(r: nat, height: int, stride: int)
    requires stride > 0 && r < height
    ensures r * stride + (height - 1 - r) * stride == (height - 1) * stride
    ensures (height - 1) * stride + stride == height * stride
    ensures r * stride >= 0 && (height - 1 - r) * stride >= 0
  {
    MulNonNegative(r, stride);
    MulNonNegative(height - 1 - r, stride);
  }

  /** Bytes after the last row are never touched. */
  lemma TailKept(s: seq<byte>, stride: int, height: int, p: nat)
    requires Admissible(|s|, stride, height) && p < |s| && (stride <= 0 || height <= 0 || p >= height * stride)
    ensures Inverted(s, stride, height)[p] == s[p]
  {
    LastRowAfterFirst(stride, height);
    if stride > 0 && height >= 2 {
      assert (height - 1) * stride + stride == height * stride;
    }
  }

  /** Reversing the same rows twice gives back the original buffer. */
  lemma MirroredTwice(s: seq<byte>, stride: int, lastRow: int)
    requires stride > 0 && WholePixels(lastRow, stride) && lastRow + stride <= |s|
    ensures Mirrored(Mirrored(s, stride, lastRow), stride, lastRow) == s
  {
    var t := Mirrored(s, stride, lastRow);
    forall p | 0 <= p < |s|
      ensures Mirrored(t, stride, lastRow)[p] == s[p]
    {
      if p < lastRow + stride {
        MirrorTwice(p, stride, lastRow);
      }
    }
  }

  /** Inverting twice gives back the original buffer. */
  lemma InvertedTwice(s: seq<byte>, stride: int, height: int)
    requires Admissible(|s|, stride, height)
    ensures |Inverted(s, stride, height)| == |s|
    ensures Inverted(Inverted(s, stride, height), stride, height) == s
  {
    var lastRow := (height - 1) * stride;
    if lastRow > 0 {
      LastRowAfterFirst(stride, height);
      RowStart(height - 1, stride);
      assert lastRow + stride == height * stride;
      MirroredTwice(s, stride, lastRow);
    }
  }

  /** System.Array.Copy of `length` elements; when source and destination are
      the same array the copy behaves as if the source range were first saved,
      so overlapping ranges come out right. */
  method ArrayCopy(src: array<byte>, srcIndex: nat, dst: array<byte>, dstIndex: nat, length: nat)
    requires srcIndex + length <= src.Length && dstIndex + length <= dst.Length
    modifies dst
    ensures forall k :: dstIndex <= k < dstIndex + length ==> dst[k] == old(src[srcIndex + k - dstIndex])
    ensures forall k :: 0 <= k < dst.Length && !(dstIndex <= k < dstIndex + length) ==> dst[k] == old(dst[k])
  {
    forall k | 0 <= k < length {
      dst[dstIndex + k] := src[srcIndex + k];
    }
  }

  /** The body of the InvertY loop: the row at `to` goes to the scratch row, the
      row at `from` is copied over it, and the scratch row is copied to `from`. */
  method ExchangeRows(values: array<byte>, tmp: array<byte>, from: nat, to: nat, stride: nat)
    requires tmp != values && tmp.Length == stride && from + stride <= to && to + stride <= values.Length
    modifies values, tmp
    ensures forall p :: 0 <= p < values.Length ==>
      values[p] == (if from <= p < from + stride then old(values[p - from + to])
                    else if to <= p < to + stride then old(values[p - to + from])
                    else old(values[p]))
  {
    ghost var v := values[..];
    ArrayCopy(values, to, tmp, 0, stride);
    ghost var saved := tmp[..];
    assert forall k :: 0 <= k < stride ==> saved[k] == v[to + k];
    ArrayCopy(values, from, values, to, stride);
    ghost var w := values[..];
    assert forall p :: to <= p < to + stride ==> w[p] == v[p - to + from];
    assert forall p :: 0 <= p < values.Length && !(to <= p < to + stride) ==> w[p] == v[p];
    ArrayCopy(tmp, 0, values, from, stride);
    forall p | 0 <= p < values.Length
      ensures values[p] == (if from <= p < from + stride then old(values[p - from + to])
                            else if to <= p < to + stride then old(values[p - to + from])
                            else old(values[p]))
    {
      if from <= p < from + stride {
        assert values[p] == saved[p - from];
      } else {
        assert values[p] == w[p];
      }
    }
  }

  /** The loop of InvertY.Apply: one row of scratch space, a cursor `from`
      moving down from the first row and a cursor `to` moving up from the last,
      exchanging the two rows until the cursors meet. */
  method ReverseRows(values: array<byte>, stride: int, lastRow: int)
    requires stride > 0 && lastRow > 0 && WholePixels(lastRow, stride) && lastRow + stride <= values.Length
    modifies values
    ensures values[..] == Mirrored(old(values[..]), stride, lastRow)
  {
    ghost var s := values[..];
    ghost var target := Mirrored(s, stride, lastRow);
    var fromRow, toRow := 0, lastRow;
    var tmp := new byte[stride];
    while true
      invariant 0 <= fromRow < toRow && fromRow + toRow == lastRow
      invariant WholePixels(fromRow, stride) && WholePixels(toRow, stride)
      invariant tmp != values && tmp.Length == stride
      invariant forall p :: 0 <= p < values.Length ==>
        values[p] == (if p < fromRow || toRow + stride <= p then target[p] else s[p])
      decreases toRow - fromRow
    {
      BoundaryGap(fromRow, toRow, stride);
      RowsPaired(fromRow, toRow, stride, lastRow);
      ExchangeRows(values, tmp, fromRow, toRow, stride);
      assert forall p :: 0 <= p < values.Length ==>
        values[p] == (if p < fromRow + stride || toRow <= p then target[p] else s[p]);
      DropPixel(toRow, stride);
      fromRow := fromRow + stride;
      toRow := toRow - stride;
      if !(fromRow < toRow) {
        if fromRow == toRow {
          RowsPaired(fromRow, toRow, stride, lastRow);
        } else {
          BoundaryGap(toRow, fromRow, stride);
        }
        break;
      }
    }
    assert values[..] == target;
  }

  /** InvertY.Apply: the cursor `to` starts at the last row, (height - 1) * stride;
      the rows are exchanged only when it lies after the first. */
  method Apply(values: array<byte>, stride: int, height: int)
    requires Admissible(values.Length, stride, height)
    modifies values
    ensures values[..] == Inverted(old(values[..]), stride, height)
  {
    var from := 0;
    var lastRow := (height - 1) * stride;
    if from < lastRow {
      LastRowAfterFirst(stride, height);
      RowStart(height - 1, stride);
      assert lastRow + stride == height * stride;
      ReverseRows(values, stride, lastRow);
    }
  }
}
