/** SwapChannel.Apply: exchanges two colour channels of every pixel in place. */
module ChannelSwap {
  import opened Pixels

  /** One pixel with its bytes at offsets `a` and `b` exchanged. */
  function SwapInPixel(p: seq<byte>, a: nat, b: nat): (q: seq<byte>)
    requires a < |p| && b < |p|
    ensures |q| == |p| && q[a] == p[b] && q[b] == p[a]
    ensures forall k | 0 <= k < |p| && k != a && k != b :: q[k] == p[k]
  {
    p[a := p[b]][b := p[a]]
  }

  /** The buffer with, in every pixel, the bytes at offsets `a` and `b` exchanged. */
  function Swapped(s: seq<byte>, a: nat, b: nat, pixelSize: nat): (r: seq<byte>)
    requires a < pixelSize && b < pixelSize && WholePixels(|s|, pixelSize)
    ensures |r| == |s|
    decreases |s|
  {
    if |s| == 0 then []
    else
      DropPixel(|s|, pixelSize);
      SwapInPixel(s[..pixelSize], a, b) + Swapped(s[pixelSize..], a, b, pixelSize)
  }

  /** What the source needs to stay inside the buffer when it does traverse it:
      both offsets inside a pixel and the buffer made of whole pixels, because
      the loop compares only the first cursor with the length. */
  predicate Admissible(a: Channel, b: Channel, len: nat, format: PixelFormat, pixelSize: int)
  {
    a != b && len > 0 && ChannelOffset(format, a).Some? ==>
      ChannelOffset(format, a).value < pixelSize && ChannelOffset(format, b).value < pixelSize &&
      WholePixels(len, pixelSize)
  }

  /** Effect of SwapChannel(a, b).Apply: nothing when a == b, before the format
      is even looked at; nothing on an empty buffer; NotSupportedException on a
      non-empty buffer in an unsupported format; otherwise the channels swapped. */
  function Effect(a: Channel, b: Channel, s: seq<byte>, format: PixelFormat, pixelSize: int): (r: Applied)
    requires Admissible(a, b, |s|, format, pixelSize)
    ensures a == b || |s| == 0 ==> r == Rewritten(s)
    ensures r.Unsupported? <==> a != b && |s| > 0 && format == Other
    ensures r.Unsupported? ==> r.format == format
    ensures r.Rewritten? ==> |r.values| == |s|
  {
    if a == b || |s| == 0 then Rewritten(s)
    else match ChannelOffset(format, a)
      case None => Unsupported(format)
      case Some(offA) => Rewritten(Swapped(s, offA, ChannelOffset(format, b).value, pixelSize))
  }

  /** Seen from the source's two cursors: a byte the cursor started at `a`
      visits receives the byte `b - a` further on, a byte the cursor started at
      `b` visits receives the byte `a - b` further on, and no other byte changes. */
  lemma {:induction false} SwappedAt(s: seq<byte>, a: nat, b: nat, pixelSize: nat, k: nat)
    requires a < pixelSize && b < pixelSize && a != b && WholePixels(|s|, pixelSize) && k < |s|
    ensures OnCursor(k, a, pixelSize) ==> k - a + b < |s| && Swapped(s, a, b, pixelSize)[k] == s[k - a + b]
    ensures OnCursor(k, b, pixelSize) ==> k - b + a < |s| && Swapped(s, a, b, pixelSize)[k] == s[k - b + a]
    ensures !OnCursor(k, a, pixelSize) && !OnCursor(k, b, pixelSize) ==> Swapped(s, a, b, pixelSize)[k] == s[k]
    decreases |s|
  {
    DropPixel(|s|, pixelSize);
    if k < pixelSize {
      CursorInPixel(0, k, a, pixelSize);
      CursorInPixel(0, k, b, pixelSize);
    } else {
      var rest := s[pixelSize..];
      SwappedAt(rest, a, b, pixelSize, k - pixelSize);
      assert Swapped(s, a, b, pixelSize)[k] == Swapped(rest, a, b, pixelSize)[k - pixelSize];
      assert OnCursor(k, a, pixelSize) == OnCursor(k - pixelSize, a, pixelSize);
      assert OnCursor(k, b, pixelSize) == OnCursor(k - pixelSize, b, pixelSize);
      if OnCursor(k, a, pixelSize) {
        assert rest[k - pixelSize - a + b] == s[k - a + b];
      } else if OnCursor(k, b, pixelSize) {
        assert rest[k - pixelSize - b + a] == s[k - b + a];
      } else {
        assert rest[k - pixelSize] == s[k];
      }
    }
  }

  /** Per pixel: in the pixel that starts at the boundary `base`, the bytes at
      offsets `a` and `b` are exchanged and every other byte is kept. */
  lemma PixelSwapped(s: seq<byte>, a: nat, b: nat, pixelSize: nat, base: nat)
    requires a < pixelSize && b < pixelSize && a != b && WholePixels(|s|, pixelSize)
    requires WholePixels(base, pixelSize) && base < |s|
    ensures base + pixelSize <= |s|
    ensures forall k | base <= k < base + pixelSize ::
      Swapped(s, a, b, pixelSize)[k] ==
        if k == base + a then s[base + b] else if k == base + b then s[base + a] else s[k]
  {
    BoundaryGap(base, |s|, pixelSize);
    forall k | base <= k < base + pixelSize
      ensures Swapped(s, a, b, pixelSize)[k] ==
        if k == base + a then s[base + b] else if k == base + b then s[base + a] else s[k]
    {
      SwappedAt(s, a, b, pixelSize, k);
      CursorInPixel(base, k - base, a, pixelSize);
      CursorInPixel(base, k - base, b, pixelSize);
    }
  }

  /** Exchanging the same two channels twice restores a pixel. */
  lemma SwapInPixelTwice(p: seq<byte>, a: nat, b: nat)
    requires a < |p| && b < |p|
    ensures SwapInPixel(SwapInPixel(p, a, b), a, b) == p
  {
  }

  /** Exchanging the same two channels twice restores the buffer. */
  lemma {:induction false} SwappedTwice(s: seq<byte>, a: nat, b: nat, pixelSize: nat)
    requires a < pixelSize && b < pixelSize && WholePixels(|s|, pixelSize)
    ensures Swapped(Swapped(s, a, b, pixelSize), a, b, pixelSize) == s
    decreases |s|
  {
    if |s| > 0 {
      DropPixel(|s|, pixelSize);
      var t := Swapped(s, a, b, pixelSize);
      SwappedTwice(s[pixelSize..], a, b, pixelSize);
      SwapInPixelTwice(s[..pixelSize], a, b);
      assert t[..pixelSize] == SwapInPixel(s[..pixelSize], a, b);
      assert t[pixelSize..] == Swapped(s[pixelSize..], a, b, pixelSize);
      assert s == s[..pixelSize] + s[pixelSize..];
    }
  }

  /** Applying the same SwapChannel twice gives back the original buffer. */
  lemma EffectTwice(a: Channel, b: Channel, s: seq<byte>, t: seq<byte>, format: PixelFormat, pixelSize: int)
    requires Admissible(a, b, |s|, format, pixelSize)
    requires Effect(a, b, s, format, pixelSize) == Rewritten(t)
    ensures |t| == |s| && Effect(a, b, t, format, pixelSize) == Rewritten(s)
  {
    if a != b && |s| > 0 && format != Other {
      SwappedTwice(s, ChannelOffset(format, a).value, ChannelOffset(format, b).value, pixelSize);
    }
  }

  /** The body of the SwapChannel loop: exchanges the bytes at `i` and `j`
      through a temporary. */
  method SwapBytes(values: array<byte>, i: nat, j: nat)
    requires i < values.Length && j < values.Length
    modifies values
    ensures forall k :: 0 <= k < values.Length ==>
      values[k] == if k == i then old(values[j]) else if k == j then old(values[i]) else old(values[k])
  {
    var tmp := values[i];
    values[i] := values[j];
    values[j] := tmp;
  }

  /** The loop of SwapChannel.Apply over a buffer of whole pixels: two cursors
      start at the offsets of the two channels, advance in lockstep by one
      pixel, and only the first is compared with the length. */
  method SwapLoop(values: array<byte>, offA: nat, offB: nat, pixelSize: nat)
    requires offA < pixelSize && offB < pixelSize && offA != offB && values.Length > 0
    requires WholePixels(values.Length, pixelSize)
    modifies values
    ensures values[..] == Swapped(old(values[..]), offA, offB, pixelSize)
  {
    ghost var s := values[..];
    ghost var target := Swapped(s, offA, offB, pixelSize);
    var l := values.Length;
    var i, j := offA, offB;
    ghost var base := 0;
    while true
      invariant WholePixels(base, pixelSize) && base < l && i == base + offA && j == base + offB
      invariant forall k :: 0 <= k < l ==> values[k] == if k < base then target[k] else s[k]
      decreases l - i
    {
      BoundaryGap(base, l, pixelSize);
      PixelSwapped(s, offA, offB, pixelSize, base);
      SwapBytes(values, i, j);
      assert forall k :: 0 <= k < l ==> values[k] == if k < base + pixelSize then target[k] else s[k];
      assert WholePixels(base + pixelSize, pixelSize);
      base := base + pixelSize;
      i := i + pixelSize;
      j := j + pixelSize;
      if !(i < l) {
        if base < l {
          BoundaryGap(base, l, pixelSize);
        }
        break;
      }
    }
    assert values[..] == target;
  }

  /** SwapChannel.Apply: returns at once for equal channels; otherwise, on a
      non-empty buffer, checks the format before the first byte is touched and
      then runs the loop. */
  method Apply(a: Channel, b: Channel, values: array<byte>, format: PixelFormat, pixelSize: int) returns (outcome: Outcome)
    requires Admissible(a, b, values.Length, format, pixelSize)
    modifies values
    ensures Reported(outcome, values[..]) == Effect(a, b, old(values[..]), format, pixelSize)
    ensures outcome.NotSupported? ==> values[..] == old(values[..])
  {
    if a == b {
      return Done;
    }
    var l := values.Length;
    if 0 < l {
      var lead := LeadingBytes(format);
      if lead.None? {
        return NotSupported(format);
      }
      var offA, offB := a + lead.value, b + lead.value;
      assert offA == ChannelOffset(format, a).value && offB == ChannelOffset(format, b).value;
      SwapLoop(values, offA, offB, pixelSize);
    }
    return Done;
  }
}
