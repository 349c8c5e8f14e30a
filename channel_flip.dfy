/** FlipChannel.Apply: inverts one colour channel of every pixel in place. */
module ChannelFlip {
  import opened Pixels

  /** The buffer after every byte the cursor `offset, offset + pixelSize, ...`
      visits has been replaced by its complement 255 - v. The cursor runs over
      the whole buffer, row padding included. */
  function Flipped(s: seq<byte>, offset: nat, pixelSize: nat): (r: seq<byte>)
    requires pixelSize > 0
    ensures |r| == |s|
  {
    seq(|s|, k requires 0 <= k < |s| => if OnCursor(k, offset, pixelSize) then 255 - s[k] else s[k])
  }

  /** What the source needs to stay inside the buffer: on a non-empty buffer in a
      supported format the pixel size is positive (otherwise the loop never
      advances) and the first byte written, at the channel offset, exists. */
  predicate Admissible(channel: Channel, len: nat, format: PixelFormat, pixelSize: int)
  {
    len > 0 && ChannelOffset(format, channel).Some? ==>
      pixelSize > 0 && ChannelOffset(format, channel).value < len
  }

  /** Effect of FlipChannel(channel).Apply: nothing on an empty buffer, whatever
      the format; NotSupportedException on a non-empty buffer in an unsupported
      format; otherwise the channel inverted. */
  function Effect(channel: Channel, s: seq<byte>, format: PixelFormat, pixelSize: int): (r: Applied)
    requires Admissible(channel, |s|, format, pixelSize)
    ensures |s| == 0 ==> r == Rewritten(s)
    ensures r.Unsupported? <==> |s| > 0 && format == Other
    ensures r.Unsupported? ==> r.format == format
    ensures r.Rewritten? ==> |r.values| == |s|
  {
    if |s| == 0 then Rewritten(s)
    else match ChannelOffset(format, channel)
      case None => Unsupported(format)
      case Some(offset) => Rewritten(Flipped(s, offset, pixelSize))
  }

  /** Inverting the same bytes twice restores the buffer. */
  lemma FlippedTwice(s: seq<byte>, offset: nat, pixelSize: nat)
    requires pixelSize > 0
    ensures Flipped(Flipped(s, offset, pixelSize), offset, pixelSize) == s
  {
    var t := Flipped(s, offset, pixelSize);
    assert forall k :: 0 <= k < |s| ==> Flipped(t, offset, pixelSize)[k] == s[k];
  }

  /** The bytes inverted are those at offset, offset + pixelSize,
      offset + 2 * pixelSize, ... below the length; all others are kept. */
  lemma FlippedBytes(s: seq<byte>, offset: nat, pixelSize: nat, k: nat)
    requires pixelSize > 0 && k < |s|
    ensures Flipped(s, offset, pixelSize)[k] ==
      if offset <= k && (k - offset) % pixelSize == 0 then 255 - s[k] else s[k]
  {
    OnCursorMod(k, offset, pixelSize);
  }

  /** Per pixel: when the offset lies inside a pixel, exactly the byte at that
      offset of each pixel is inverted. */
  lemma FlippedPerPixel(s: seq<byte>, offset: nat, pixelSize: nat, base: nat, d: nat)
    requires offset < pixelSize && WholePixels(base, pixelSize) && d < pixelSize && base + d < |s|
    ensures Flipped(s, offset, pixelSize)[base + d] == if d == offset then 255 - s[base + d] else s[base + d]
  {
    CursorInPixel(base, d, offset, pixelSize);
  }

  /** Applying the same FlipChannel twice gives back the original buffer. */
  lemma EffectTwice(channel: Channel, s: seq<byte>, t: seq<byte>, format: PixelFormat, pixelSize: int)
    requires Admissible(channel, |s|, format, pixelSize)
    requires Effect(channel, s, format, pixelSize) == Rewritten(t)
    ensures |t| == |s| && Effect(channel, t, format, pixelSize) == Rewritten(s)
  {
    if |s| > 0 {
      FlippedTwice(s, ChannelOffset(format, channel).value, pixelSize);
    }
  }

  /** FlipChannel.Apply, with the do-while loop of the source: the first byte is
      rewritten before the cursor is compared with the length. */
  method Apply(channel: Channel, values: array<byte>, format: PixelFormat, pixelSize: int) returns (outcome: Outcome)
    requires Admissible(channel, values.Length, format, pixelSize)
    modifies values
    ensures Reported(outcome, values[..]) == Effect(channel, old(values[..]), format, pixelSize)
    ensures outcome.NotSupported? ==> values[..] == old(values[..])
  {
    ghost var s := values[..];
    var i := 0;
    var l := values.Length;
    if i < l {
      var lead := LeadingBytes(format);
      if lead.None? {
        return NotSupported(format);
      }
      var offset := channel + lead.value;
      assert offset == ChannelOffset(format, channel).value;
      ghost var target := Flipped(s, offset, pixelSize);
      i := i + offset;
      while true
        invariant OnCursor(i, offset, pixelSize) && i < l
        invariant forall k :: 0 <= k < l ==> values[k] == if k < i then target[k] else s[k]
        decreases l - i
      {
        values[i] := 255 - values[i];
        forall k | i < k < i + pixelSize
          ensures !OnCursor(k, offset, pixelSize)
        {
          CursorStep(i, offset, pixelSize, k - i);
        }
        CursorStep(i, offset, pixelSize, pixelSize);
        assert forall k :: 0 <= k < l ==> values[k] == if k < i + pixelSize then target[k] else s[k];
        i := i + pixelSize;
        if !(i < l) {
          break;
        }
      }
      assert values[..] == target;
    }
    return Done;
  }
}
