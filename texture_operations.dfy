/** The texture operations as values: each one is built once by a validating
    constructor, carries its name, and is applied to the raw bytes of a locked
    bitmap. */
module TextureOperations {
  import opened Pixels
  import ChannelFlip
  import ChannelSwap
  import RowInversion
  import Normalization

  /** A texture operation and the fields its constructor fixed. */
  datatype TextureOperation =
    | FlipChannel(name: string, channel: Channel)
    | SwapChannel(name: string, channelA: Channel, channelB: Channel)
    | InvertY(name: string)
    | Normalize(name: string)

  /** ArgumentOutOfRangeException, with the name of the offending parameter. */
  datatype ConstructionError = ArgumentOutOfRange(paramName: string)

  /** The name every operation stores: the one it was given, or the empty
      string for a null name. */
  function BaseName(name: Option<string>): (stored: string)
    ensures name.Some? ==> stored == name.value
    ensures name.None? ==> stored == ""
  {
    match name
    case Some(n) => n
    case None => ""
  }

  /** The decimal digit of a channel index, as string interpolation writes it. */
  function Digit(c: Channel): (d: char)
    ensures '0' <= d <= '2' && d as int - '0' as int == c
  {
    (c + '0' as int) as char
  }

  /** `new FlipChannel(channel, name)`: the default name is "i" followed by the
      channel; an index outside red..blue is rejected. */
  function NewFlipChannel(channel: int, name: Option<string>): (r: Result<TextureOperation, ConstructionError>)
    ensures r.Ok? <==> 0 <= channel <= 2
    ensures r.Err? ==> r.error == ArgumentOutOfRange("channel")
    ensures r.Ok? ==> (r.value.FlipChannel? && r.value.channel == channel &&
      r.value.name == if name.Some? then name.value else ['i', Digit(channel)])
  {
    if channel < 0 || channel > 2 then Err(ArgumentOutOfRange("channel"))
    else Ok(FlipChannel(BaseName(if name.Some? then name else Some(['i', Digit(channel)])), channel))
  }

  /** `new SwapChannel(channelA, channelB, name)`: the default name is "s"
      followed by both channels; `channelA` is checked before `channelB`. */
  function NewSwapChannel(channelA: int, channelB: int, name: Option<string>): (r: Result<TextureOperation, ConstructionError>)
    ensures r.Ok? <==> 0 <= channelA <= 2 && 0 <= channelB <= 2
    ensures !(0 <= channelA <= 2) ==> r == Err(ArgumentOutOfRange("channelA"))
    ensures 0 <= channelA <= 2 && !(0 <= channelB <= 2) ==> r == Err(ArgumentOutOfRange("channelB"))
    ensures r.Ok? ==> (r.value.SwapChannel? && r.value.channelA == channelA && r.value.channelB == channelB &&
      r.value.name == if name.Some? then name.value else ['s', Digit(channelA), Digit(channelB)])
  {
    if channelA < 0 || channelA > 2 then Err(ArgumentOutOfRange("channelA"))
    else if channelB < 0 || channelB > 2 then Err(ArgumentOutOfRange("channelB"))
    else Ok(SwapChannel(BaseName(if name.Some? then name else Some(['s', Digit(channelA), Digit(channelB)])), channelA, channelB))
  }

  /** `new InvertY(name)`, named "fy" by default. */
  function NewInvertY(name: Option<string>): (op: TextureOperation)
    ensures op.InvertY? && op.name == (if name.Some? then name.value else "fy")
  {
    InvertY(BaseName(if name.Some? then name else Some("fy")))
  }

  /** `new Normalize(name)`, named "N" by default. */
  function NewNormalize(name: Option<string>): (op: TextureOperation)
    ensures op.Normalize? && op.name == (if name.Some? then name.value else "N")
  {
    Normalize(BaseName(if name.Some? then name else Some("N")))
  }

  /** What an `Apply` call needs from the buffer and the bitmap description;
      `pixelSize` is the pixel size in bytes the source derives from the format. */
  predicate Admissible(op: TextureOperation, len: nat, info: BitmapInfo, pixelSize: int)
  {
    match op
    case FlipChannel(_, c) => ChannelFlip.Admissible(c, len, info.format, pixelSize)
    case SwapChannel(_, a, b) => ChannelSwap.Admissible(a, b, len, info.format, pixelSize)
    case InvertY(_) => RowInversion.Admissible(len, info.stride, info.height)
    case Normalize(_) => Normalization.Admissible(len, info.format, pixelSize)
  }

  /** The specified effect of `op.Apply(values, infos)` on a buffer `s`.
      NotSupportedException is thrown exactly by an operation that looks at the
      format, on a non-empty buffer in an unsupported format; a SwapChannel
      with equal channels never looks at the format, and InvertY never does.
      Every operation keeps the length of the buffer. */
  function Effect(op: TextureOperation, s: seq<byte>, info: BitmapInfo, pixelSize: int): (r: Applied)
    requires Admissible(op, |s|, info, pixelSize)
    ensures r.Unsupported? <==>
      !op.InvertY? && !(op.SwapChannel? && op.channelA == op.channelB) && |s| > 0 && info.format == Other
    ensures r.Unsupported? ==> r.format == info.format
    ensures r.Rewritten? ==> |r.values| == |s|
  {
    match op
    case FlipChannel(_, c) => ChannelFlip.Effect(c, s, info.format, pixelSize)
    case SwapChannel(_, a, b) => ChannelSwap.Effect(a, b, s, info.format, pixelSize)
    case InvertY(_) => Rewritten(RowInversion.Inverted(s, info.stride, info.height))
    case Normalize(_) => Normalization.Effect(s, info.format, pixelSize)
  }

  /** `op.Apply(values, infos)`: dispatches to the operation's own Apply. */
  method Apply(op: TextureOperation, values: array<byte>, info: BitmapInfo, pixelSize: int) returns (outcome: Outcome)
    requires Admissible(op, values.Length, info, pixelSize)
    modifies values
    ensures Reported(outcome, values[..]) == Effect(op, old(values[..]), info, pixelSize)
    ensures outcome.NotSupported? ==> values[..] == old(values[..])
  {
    match op
    case FlipChannel(_, c) =>
      outcome := ChannelFlip.Apply(c, values, info.format, pixelSize);
    case SwapChannel(_, a, b) =>
      outcome := ChannelSwap.Apply(a, b, values, info.format, pixelSize);
    case InvertY(_) =>
      RowInversion.Apply(values, info.stride, info.height);
      outcome := Done;
    case Normalize(_) =>
      outcome := Normalization.Apply(values, info.format, pixelSize);
  }

  /** FlipChannel, SwapChannel and InvertY undo themselves: applying the same
      operation to its own result gives back the original buffer. */
  lemma ApplyTwiceRestores(op: TextureOperation, s: seq<byte>, t: seq<byte>, info: BitmapInfo, pixelSize: int)
    requires !op.Normalize? && Admissible(op, |s|, info, pixelSize)
    requires Effect(op, s, info, pixelSize) == Rewritten(t)
    ensures |t| == |s| && Effect(op, t, info, pixelSize) == Rewritten(s)
  {
    match op
    case FlipChannel(_, c) => ChannelFlip.EffectTwice(c, s, t, info.format, pixelSize);
    case SwapChannel(_, a, b) => ChannelSwap.EffectTwice(a, b, s, t, info.format, pixelSize);
    case InvertY(_) => RowInversion.InvertedTwice(s, info.stride, info.height);
  }

  /** Normalize is idempotent: applying it to its own result changes nothing. */
  lemma NormalizeIdempotent(op: TextureOperation, s: seq<byte>, t: seq<byte>, info: BitmapInfo, pixelSize: int)
    requires op.Normalize? && Admissible(op, |s|, info, pixelSize)
    requires Effect(op, s, info, pixelSize) == Rewritten(t)
    ensures |t| == |s| && Effect(op, t, info, pixelSize) == Rewritten(t)
  {
    Normalization.EffectIdempotent(s, t, info.format, pixelSize);
  }

  /** InvertY reads only the stride and the height: the pixel format and the
      pixel size make no difference. */
  lemma InvertYIgnoresFormat(name: string, s: seq<byte>, info: BitmapInfo, format: PixelFormat, pixelSize: int, otherSize: int)
    requires Admissible(InvertY(name), |s|, info, pixelSize)
    ensures Admissible(InvertY(name), |s|, info.(format := format), otherSize)
    ensures Effect(InvertY(name), s, info, pixelSize) == Effect(InvertY(name), s, info.(format := format), otherSize)
  {
  }

  /** Inverting red in one 24bpp pixel. */
  lemma FlipRedExample()
    ensures var info := BitmapInfo(Rgb24, 4, 1);
      Admissible(FlipChannel("i0", 0), 3, info, 3) &&
      Effect(FlipChannel("i0", 0), [10, 20, 30], info, 3) == Rewritten([245, 20, 30])
  {
    var t := ChannelFlip.Flipped([10, 20, 30], 0, 3);
    assert OnCursor(0, 0, 3) && !OnCursor(1, 0, 3) && !OnCursor(2, 0, 3);
    assert t == [245, 20, 30];
  }

  /** Exchanging red and blue in one 32bppArgb pixel leaves the skipped leading byte alone. */
  lemma SwapRedBlueExample()
    ensures var info := BitmapInfo(Argb32, 4, 1);
      Admissible(SwapChannel("s02", 0, 2), 4, info, 4) &&
      Effect(SwapChannel("s02", 0, 2), [200, 10, 20, 30], info, 4) == Rewritten([200, 30, 20, 10])
  {
    var s: seq<byte> := [200, 10, 20, 30];
    assert WholePixels(4, 4) by { assert OnCursor(0, 0, 4); }
    assert s[..4] == s && s[4..] == [];
  }

  /** Turning two rows of two bytes upside down. */
  lemma InvertTwoRowsExample()
    ensures var info := BitmapInfo(Rgb24, 2, 2);
      Admissible(InvertY("fy"), 4, info, 3) &&
      Effect(InvertY("fy"), [1, 2, 3, 4], info, 3) == Rewritten([3, 4, 1, 2])
  {
    assert WholePixels(2, 2) by { assert OnCursor(0, 0, 2); }
    var t := RowInversion.Mirrored([1, 2, 3, 4], 2, 2);
    assert t == [3, 4, 1, 2];
  }

  /** A pixel with a single non-zero colour becomes a unit in that colour; a
      pixel with two non-zero colours has no component that reaches 1. */
  lemma NormalizeExample()
    ensures var info := BitmapInfo(Rgb24, 6, 1);
      Admissible(Normalize("N"), 6, info, 3) &&
      Effect(Normalize("N"), [0, 7, 0, 3, 4, 0], info, 3) == Rewritten([0, 1, 0, 0, 0, 0])
  {
    assert WholePixels(6, 3) by { assert OnCursor(3, 0, 3) && OnCursor(0, 0, 3); }
    var t := Normalization.Normalized([0, 7, 0, 3, 4, 0], 0, 3);
    assert PixelStart(3, 3) == 3 && PixelStart(4, 3) == 3 && PixelStart(5, 3) == 3;
    assert t == [0, 1, 0, 0, 0, 0];
  }
}
