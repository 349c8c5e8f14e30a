/** Shared vocabulary of the texture operations: bytes, channels, pixel formats,
    the format-to-offset table and the index arithmetic every traversal relies on. */
module Pixels {

  /** One byte of raw pixel memory. */
  newtype byte = b: int | 0 <= b < 256

  /** A colour channel index: red = 0, green = 1, blue = 2. */
  type Channel = c: int | 0 <= c <= 2

  datatype Option<T> = None | Some(value: T)

  datatype Result<T, E> = Ok(value: T) | Err(error: E)

  /** The pixel formats the operations tell apart; `Other` stands for every
      remaining System.Drawing pixel format. */
  datatype PixelFormat = Canonical | Rgb24 | Rgb32 | Argb32 | PArgb32 | Other

  /** The parts of System.Drawing's BitmapData that the operations read. */
  datatype BitmapInfo = BitmapInfo(format: PixelFormat, stride: int, height: int)

  /** What an `Apply` call reports: it returned normally, or it threw
      NotSupportedException for the given format. */
  datatype Outcome = Done | NotSupported(format: PixelFormat)

  /** The specified effect of an `Apply` call: the new buffer, or the format it rejected. */
  datatype Applied = Rewritten(values: seq<byte>) | Unsupported(format: PixelFormat)

  /** The effect a method call produced, read from its outcome and the buffer afterwards. */
  function Reported(outcome: Outcome, values: seq<byte>): Applied
  {
    match outcome
    case Done => Rewritten(values)
    case NotSupported(format) => Unsupported(format)
  }

  /** Number of bytes the source skips in front of the colour channels of a
      pixel: one for the ARGB layouts, which it takes to hold alpha first;
      None for a format the channel operations reject. */
  function LeadingBytes(format: PixelFormat): (lead: Option<nat>)
    ensures lead.None? <==> format == Other
    ensures lead == Some(0) <==> format in {Canonical, Rgb24, Rgb32}
    ensures lead == Some(1) <==> format in {Argb32, PArgb32}
  {
    match format
    case Canonical => Some(0)
    case Rgb24 => Some(0)
    case Rgb32 => Some(0)
    case Argb32 => Some(1)
    case PArgb32 => Some(1)
    case Other => None
  }

  /** Byte offset of `channel` inside a pixel of `format`: the channel itself,
      one further on for the ARGB layouts, past the byte the source skips. */
  function ChannelOffset(format: PixelFormat, channel: Channel): (offset: Option<nat>)
    ensures offset.None? <==> format == Other
    ensures offset.Some? ==> offset.value == channel + (if format in {Argb32, PArgb32} then 1 else 0)
  {
    match LeadingBytes(format)
    case None => None
    case Some(lead) => Some(channel + lead)
  }

  /** Whether a cursor that starts at `offset` and advances by `step` visits `k`. */
  predicate OnCursor(k: int, offset: int, step: int)
    requires step > 0
    decreases k - offset
  {
    offset <= k && (k == offset || OnCursor(k - step, offset, step))
  }

  /** Whether `n` is a whole number of pixels of `pixelSize` bytes, that is,
      a pixel boundary: the cursor that starts at 0 visits it. */
  predicate WholePixels(n: int, pixelSize: int)
    requires pixelSize > 0
  {
    OnCursor(n, 0, pixelSize)
  }

  /** A non-empty run of whole pixels holds at least one pixel, and what
      follows its first pixel is whole pixels again. */
  lemma DropPixel(n: int, m: int)
    requires m > 0 && WholePixels(n, m) && n > 0
    ensures m <= n && WholePixels(n - m, m)
  {
    assert OnCursor(n - m, 0, m);
  }

  lemma MulAtLeast(a: int, m: int)
    requires a >= 1 && m > 0
    ensures a * m >= m
  {
  }

  /** Euclidean division is determined by quotient and remainder. */
  lemma DivModUnique(x: int, q: int, r: int, m: int)
    requires m > 0 && 0 <= r < m && x == q * m + r
    ensures x / m == q && x % m == r
  {
    var q', r' := x / m, x % m;
    assert x == q' * m + r';
    if q' > q {
      MulAtLeast(q' - q, m);
    } else if q' < q {
      MulAtLeast(q - q', m);
    }
  }

  /** The cursor visits exactly the positions at or after its start whose
      distance from the start is a multiple of the step. */
  lemma {:induction false} OnCursorMod(k: int, offset: int, step: int)
    requires step > 0
    ensures OnCursor(k, offset, step) <==> offset <= k && (k - offset) % step == 0
    decreases k - offset
  {
    if offset < k {
      OnCursorMod(k - step, offset, step);
      var x := k - offset;
      if x < step {
        DivModUnique(x, 0, x, step);
      } else {
        DivModUnique(x, (x - step) / step + 1, (x - step) % step, step);
      }
    }
  }

  /** Two pixel boundaries are at least a pixel apart. */
  lemma {:induction false} BoundaryGap(x: int, y: int, m: int)
    requires m > 0 && WholePixels(x, m) && WholePixels(y, m) && x < y
    ensures x + m <= y
    decreases x
  {
    if x > 0 {
      BoundaryGap(x - m, y - m, m);
    } else {
      assert OnCursor(y - m, 0, m);
    }
  }

  /** Between one visited position and the next, the cursor visits nothing. */
  lemma {:induction false} CursorStep(i: int, offset: int, m: int, d: int)
    requires m > 0 && OnCursor(i, offset, m) && 0 <= d <= m
    ensures OnCursor(i + d, offset, m) <==> d == 0 || d == m
    decreases i - offset
  {
    if 0 < d < m && i > offset {
      CursorStep(i - m, offset, m, d);
    }
  }

  /** Inside the pixel that starts at the boundary `base`, a cursor started at
      `offset < m` visits exactly the byte `base + offset`. */
  lemma {:induction false} CursorInPixel(base: int, d: int, offset: int, m: int)
    requires m > 0 && WholePixels(base, m) && 0 <= d < m && 0 <= offset < m
    ensures OnCursor(base + d, offset, m) <==> d == offset
    decreases base
  {
    if base > 0 {
      CursorInPixel(base - m, d, offset, m);
    }
  }

  /** The start of the pixel that holds byte `k`. */
  function PixelStart(k: nat, pixelSize: int): (start: nat)
    requires pixelSize > 0
    ensures start <= k < start + pixelSize
    decreases k
  {
    if k < pixelSize then 0 else pixelSize + PixelStart(k - pixelSize, pixelSize)
  }

  /** The start of a pixel is a pixel boundary. */
  lemma {:induction false} PixelStartWhole(k: nat, pixelSize: int)
    requires pixelSize > 0
    ensures WholePixels(PixelStart(k, pixelSize), pixelSize)
    decreases k
  {
    if k >= pixelSize {
      PixelStartWhole(k - pixelSize, pixelSize);
      assert OnCursor(PixelStart(k, pixelSize) - pixelSize, 0, pixelSize);
    }
  }

  /** A byte inside the pixel that starts at a boundary belongs to that pixel. */
  lemma PixelStartAt(base: nat, d: nat, pixelSize: int)
    requires pixelSize > 0 && WholePixels(base, pixelSize) && d < pixelSize
    ensures PixelStart(base + d, pixelSize) == base
  {
    var start := PixelStart(base + d, pixelSize);
    PixelStartWhole(base + d, pixelSize);
    if start < base {
      BoundaryGap(start, base, pixelSize);
    } else if base < start {
      BoundaryGap(base, start, pixelSize);
    }
  }

  /** In a buffer of whole pixels, the pixel of every byte lies inside the buffer. */
  lemma PixelInside(k: nat, n: int, pixelSize: int)
    requires pixelSize > 0 && WholePixels(n, pixelSize) && k < n
    ensures WholePixels(PixelStart(k, pixelSize), pixelSize)
    ensures PixelStart(k, pixelSize) + pixelSize <= n
  {
    PixelStartWhole(k, pixelSize);
    BoundaryGap(PixelStart(k, pixelSize), n, pixelSize);
  }
}
