# Texture operations

This project models the texture operations of `SharedProjects/Utilities/Textures/TextureOperation.cs`. They are small in-place rewrites of the raw bytes of a locked bitmap, used to prepare textures (normal maps in particular) for export:

- **FlipChannel** inverts one colour channel (`v := 255 - v`).
- **SwapChannel** exchanges two colour channels.
- **InvertY** turns the image upside down by exchanging rows.
- **Normalize** divides each colour byte by the length of the pixel's colour vector and truncates. So a pixel with a single non-zero colour keeps a 1 there, and every other pixel becomes black.

Every operation is a value of the datatype `TextureOperations.TextureOperation` and stores its name. FlipChannel and SwapChannel are built by validating constructors that return a `Result`. InvertY and Normalize validate nothing, and their constructors return the operation directly. Each operation's `Apply` is an imperative method on an `array<byte>`. The method keeps the source's `do … while` loop as `while true … break`, so the first write happens before the cursor is compared with the length. Each `Apply` is proved against an `Effect` function on the buffer's contents. The lemmas state the properties about those functions: the involutions, idempotence, the exact failure cases, and per-byte and per-row descriptions.

Modules:

- `Pixels` holds the shared pieces:
  - the byte type;
  - the channel type;
  - the pixel formats;
  - the format-to-offset table;
  - the cursor arithmetic. `OnCursor(k, offset, step)` says whether the cursor `offset, offset + step, …` visits `k`.
- `ChannelFlip`, `ChannelSwap`, `RowInversion` and `Normalization` each model one operation.
- `TextureOperations` holds the datatype, the constructors, the dispatch and the cross-operation lemmas.

The pixel size, which the source computes as `Image.GetPixelFormatSize(format) >> 3`, is a parameter of every `Apply`. System.Drawing's `BitmapData` becomes `BitmapInfo(format, stride, height)`.

## Model

| member | source | states |
|---|---|---|
| TextureOperations.BaseName | SharedProjects/Utilities/Textures/TextureOperation.cs:14-17 | the stored name is the given name, or the empty string for null |
| TextureOperations.Digit | SharedProjects/Utilities/Textures/TextureOperation.cs:37 | the character interpolated for a channel is a decimal digit whose value is the channel |
| TextureOperations.NewFlipChannel | SharedProjects/Utilities/Textures/TextureOperation.cs:37-44 | construction succeeds exactly for a channel in 0..2, otherwise ArgumentOutOfRange("channel"); the operation keeps the channel and the given name, or "i" followed by the channel digit |
| TextureOperations.NewSwapChannel | SharedProjects/Utilities/Textures/TextureOperation.cs:95-107 | succeeds exactly when both channels are in 0..2; channelA is checked first, then channelB, each failing with its own parameter name; the default name is "s" followed by both digits |
| TextureOperations.NewInvertY | SharedProjects/Utilities/Textures/TextureOperation.cs:163-165 | an InvertY named by the argument, or "fy" |
| TextureOperations.NewNormalize | SharedProjects/Utilities/Textures/TextureOperation.cs:190-192 | a Normalize named by the argument, or "N" |
| TextureOperations.Apply | SharedProjects/Utilities/Textures/TextureOperation.cs:20 | the virtual Apply: the outcome and the new buffer are the operation's specified effect on the old buffer, and a NotSupported outcome leaves the buffer untouched |
| TextureOperations.Effect | SharedProjects/Utilities/Textures/TextureOperation.cs:20 | NotSupportedException is thrown exactly on a non-empty buffer in an unsupported format, by every operation except InvertY and a SwapChannel with equal channels, and it names the format; every operation keeps the buffer's length |
| TextureOperations.ApplyTwiceRestores | SharedProjects/Utilities/Textures/TextureOperation.cs:46-185 | FlipChannel, SwapChannel and InvertY are involutions: applying the same operation to its result gives back the original buffer |
| TextureOperations.NormalizeIdempotent | SharedProjects/Utilities/Textures/TextureOperation.cs:194-242 | in the integer reading, normalizing a normalized buffer changes nothing |
| TextureOperations.InvertYIgnoresFormat | SharedProjects/Utilities/Textures/TextureOperation.cs:167-185 | InvertY's precondition and effect do not depend on the pixel format or the pixel size |
| TextureOperations.FlipRedExample | SharedProjects/Utilities/Textures/TextureOperation.cs:59-64 | inverting red in the 24bpp pixel [10,20,30] gives [245,20,30] |
| TextureOperations.SwapRedBlueExample | SharedProjects/Utilities/Textures/TextureOperation.cs:142-151 | exchanging red and blue in the 32bppArgb pixel [200,10,20,30] gives [200,30,20,10], leaving the skipped leading byte alone |
| TextureOperations.InvertTwoRowsExample | SharedProjects/Utilities/Textures/TextureOperation.cs:169-183 | two rows of two bytes [1,2,3,4] become [3,4,1,2] |
| TextureOperations.NormalizeExample | SharedProjects/Utilities/Textures/TextureOperation.cs:207-218 | in the integer reading, the 24bpp pixels [0,7,0] and [3,4,0] become [0,1,0] and [0,0,0] |
| Pixels.LeadingBytes | SharedProjects/Utilities/Textures/TextureOperation.cs:53-79 | no leading byte for Canonical, 24bppRgb and 32bppRgb; one skipped byte exactly for 32bppArgb and 32bppPArgb; None exactly for the unsupported formats |
| Pixels.ChannelOffset | SharedProjects/Utilities/Textures/TextureOperation.cs:59-70 | a channel's byte offset is the channel, or the channel plus one for the ARGB layouts; None exactly for the unsupported formats |
| Pixels.OnCursorMod | SharedProjects/Utilities/Textures/TextureOperation.cs:59-64 | the cursor that starts at `offset` and advances by `step` visits exactly the positions `k >= offset` with `(k - offset) % step == 0` |
| Pixels.CursorStep | SharedProjects/Utilities/Textures/TextureOperation.cs:60-64 | after a visited position, the cursor's next visit is exactly one step later |
| Pixels.PixelStart | SharedProjects/Utilities/Textures/TextureOperation.cs:207-218 | the start of the pixel that holds byte `k` is at most `k` and less than a pixel before it |
| ChannelFlip.Flipped | SharedProjects/Utilities/Textures/TextureOperation.cs:59-75 | the buffer the flip loop produces has the length of the input; FlippedBytes states its contents |
| ChannelFlip.FlippedTwice | SharedProjects/Utilities/Textures/TextureOperation.cs:62 | inverting the same bytes twice restores the buffer, since 255 - (255 - v) = v |
| ChannelFlip.FlippedBytes | SharedProjects/Utilities/Textures/TextureOperation.cs:59-64 | exactly the bytes at `offset + n * pixelSize` below the length become `255 - v`, and every other byte is kept |
| ChannelFlip.FlippedPerPixel | SharedProjects/Utilities/Textures/TextureOperation.cs:59-75 | in every pixel, exactly the byte at the channel offset is inverted |
| ChannelFlip.Effect | SharedProjects/Utilities/Textures/TextureOperation.cs:51-79 | an empty buffer is left as it is whatever the format; the only failure is an unsupported format on a non-empty buffer, and it names that format; the length is kept |
| ChannelFlip.EffectTwice | SharedProjects/Utilities/Textures/TextureOperation.cs:46-82 | applying the same FlipChannel to its own result gives back the original buffer |
| ChannelFlip.Apply | SharedProjects/Utilities/Textures/TextureOperation.cs:46-82 | the do-while loop from the channel offset produces exactly the specified effect; a rejected format leaves the buffer untouched |
| ChannelSwap.SwapInPixel | SharedProjects/Utilities/Textures/TextureOperation.cs:131-133 | in one pixel, the bytes at the two offsets trade places and every other byte is kept |
| ChannelSwap.Swapped | SharedProjects/Utilities/Textures/TextureOperation.cs:127-136 | exchanging two offsets in every pixel keeps the buffer's length |
| ChannelSwap.SwappedAt | SharedProjects/Utilities/Textures/TextureOperation.cs:127-136 | seen from the two cursors: a byte on cursor `a` receives the byte `b - a` further on, a byte on cursor `b` receives the byte `a - b` further on, and every other byte is kept |
| ChannelSwap.PixelSwapped | SharedProjects/Utilities/Textures/TextureOperation.cs:127-151 | in every pixel, the bytes at the two offsets are exchanged and every other byte is kept |
| ChannelSwap.SwappedTwice | SharedProjects/Utilities/Textures/TextureOperation.cs:131-133 | exchanging the same channels twice restores the buffer |
| ChannelSwap.Effect | SharedProjects/Utilities/Textures/TextureOperation.cs:111-155 | equal channels or an empty buffer leave the buffer as it is, before the format is read; the only failure is distinct channels with an unsupported format on a non-empty buffer, and it names that format; the length is kept |
| ChannelSwap.EffectTwice | SharedProjects/Utilities/Textures/TextureOperation.cs:109-158 | applying the same SwapChannel to its own result gives back the original buffer |
| ChannelSwap.SwapBytes | SharedProjects/Utilities/Textures/TextureOperation.cs:131-133 | the bytes at `i` and `j` trade places through a temporary, and every other byte is kept |
| ChannelSwap.SwapLoop | SharedProjects/Utilities/Textures/TextureOperation.cs:127-136 | the lockstep two-cursor loop leaves exactly the swapped buffer |
| ChannelSwap.Apply | SharedProjects/Utilities/Textures/TextureOperation.cs:109-158 | the early return for equal channels, the format check and the loop produce exactly the specified effect; a rejected format leaves the buffer untouched |
| RowInversion.MirrorOf | SharedProjects/Utilities/Textures/TextureOperation.cs:176-183 | the source position of every byte after the rows are reversed lies inside the rows |
| RowInversion.RowsPaired | SharedProjects/Utilities/Textures/TextureOperation.cs:176-183 | the rows at `from` and `to` with `from + to == lastRow` trade places: every byte of one comes from the same column of the other |
| RowInversion.MirrorTwice | SharedProjects/Utilities/Textures/TextureOperation.cs:176-183 | reversing the row order twice maps every position to itself |
| RowInversion.LastRowAfterFirst | SharedProjects/Utilities/Textures/TextureOperation.cs:171-173 | `from < to` at the start exactly when there are two or more rows of positive stride, or a negative stride with no rows |
| RowInversion.Mirrored | SharedProjects/Utilities/Textures/TextureOperation.cs:175-183 | the buffer the row loop produces has the length of the input; RowsPaired and MirrorOf describe where each byte comes from |
| RowInversion.Inverted | SharedProjects/Utilities/Textures/TextureOperation.cs:167-185 | the effect of InvertY keeps the buffer's length |
| RowInversion.NothingToExchange | SharedProjects/Utilities/Textures/TextureOperation.cs:171-173 | with at most one row, or a stride that is not positive, nothing changes |
| RowInversion.RowsReversed | SharedProjects/Utilities/Textures/TextureOperation.cs:169-183 | byte `c` of row `r` of the result is byte `c` of row `height - 1 - r` of the input; the middle row of an odd height stays put |
| RowInversion.TailKept | SharedProjects/Utilities/Textures/TextureOperation.cs:169-183 | the bytes at or after `height * stride` are never touched |
| RowInversion.MirroredTwice | SharedProjects/Utilities/Textures/TextureOperation.cs:176-183 | reversing the same rows twice gives back the buffer |
| RowInversion.InvertedTwice | SharedProjects/Utilities/Textures/TextureOperation.cs:167-185 | applying InvertY twice gives back the original buffer |
| RowInversion.ArrayCopy | SharedProjects/Utilities/Textures/TextureOperation.cs:178-180 | Array.Copy: the destination range receives the old source range, with overlap handled as if the source were saved first, and the rest of the destination is kept |
| RowInversion.ExchangeRows | SharedProjects/Utilities/Textures/TextureOperation.cs:178-180 | the three copies through the scratch row exchange the rows at `from` and `to` and keep every other byte |
| RowInversion.ReverseRows | SharedProjects/Utilities/Textures/TextureOperation.cs:175-183 | the from/to loop with one scratch row leaves the rows in reverse order |
| RowInversion.Apply | SharedProjects/Utilities/Textures/TextureOperation.cs:167-185 | InvertY.Apply produces exactly the specified effect |
| Normalization.UnitComponent | SharedProjects/Utilities/Textures/TextureOperation.cs:213-216 | the byte written for a component is the truncation of `c / sqrt(r² + g² + b²)`, stated without the square root, and 0 for the all-zero pixel |
| Normalization.NormalizedByte | SharedProjects/Utilities/Textures/TextureOperation.cs:209-216 | a colour byte of its pixel becomes 0 or 1, and any other byte of the pixel is kept |
| Normalization.Normalized | SharedProjects/Utilities/Textures/TextureOperation.cs:207-218 | normalizing every pixel keeps the buffer's length |
| Normalization.PixelNormalized | SharedProjects/Utilities/Textures/TextureOperation.cs:209-216 | in every pixel, each colour byte becomes its unit component, computed from the pixel's old red, green and blue; the other bytes are kept |
| Normalization.NormalizedPixelwise | SharedProjects/Utilities/Textures/TextureOperation.cs:207-218 | the normalized buffer is described pixel by pixel at every pixel boundary |
| Normalization.AtMostOneUnit | SharedProjects/Utilities/Textures/TextureOperation.cs:213-216 | the written components are each 0 or 1, and at most one of them is 1 |
| Normalization.ZeroOrUnitStable | SharedProjects/Utilities/Textures/TextureOperation.cs:213-216 | normalizing a normalized colour vector changes nothing |
| Normalization.PixelAtMostOneUnit | SharedProjects/Utilities/Textures/TextureOperation.cs:207-218 | every pixel of the result has colour bytes in {0,1} with at most one 1, and its other bytes are kept |
| Normalization.NormalizedIdempotent | SharedProjects/Utilities/Textures/TextureOperation.cs:207-218 | normalizing a normalized buffer changes nothing |
| Normalization.Effect | SharedProjects/Utilities/Textures/TextureOperation.cs:199-239 | an empty buffer is left as it is whatever the format; the only failure is an unsupported format on a non-empty buffer, and it names that format; the length is kept |
| Normalization.EffectIdempotent | SharedProjects/Utilities/Textures/TextureOperation.cs:194-242 | applying Normalize to its own result changes nothing more |
| Normalization.NormalizeBytes | SharedProjects/Utilities/Textures/TextureOperation.cs:209-216 | the three colour bytes at `k` are all read before any is written, then each becomes its unit component; every other byte is kept |
| Normalization.NormalizeLoop | SharedProjects/Utilities/Textures/TextureOperation.cs:207-218 | the pixel-by-pixel loop leaves exactly the normalized buffer |
| Normalization.Apply | SharedProjects/Utilities/Textures/TextureOperation.cs:194-242 | Normalize.Apply produces exactly the specified effect; a rejected format leaves the buffer untouched |

## Left out

- **Floating-point normalization.** Normalize writes `(byte)(c / Math.Sqrt(r*r + g*g + b*b))` in double precision. The model reads that over the integers, where the quotient of a component by the length is below 1 unless the component is the only non-zero one. So a component becomes 1 when it is the sole non-zero component, and 0 otherwise. The all-zero pixel divides 0 by 0 (NaN), and the byte cast of NaN is taken to be 0. Idempotence is proved for this integer reading only.
- **The pixel size** is a parameter, not `Image.GetPixelFormatSize(format) >> 3`. System.Drawing computes the bits per pixel of `Canonical` (0x200000) as `(0x200000 >> 8) & 0xFF`, which is 0. So the source's FlipChannel, SwapChannel and Normalize never advance their cursor on a non-empty Canonical buffer. They never terminate, or they throw IndexOutOfRangeException at the first access: FlipChannel(2) on a 2-byte buffer does, and so does Normalize on a 1-byte buffer. The `Admissible` predicates ask for a pixel size that makes the loops terminate and stay inside the buffer, so that case is not modelled. The source gives no pixel size it meant for Canonical.
- **System.Drawing types.** `BitmapData` is reduced to `BitmapInfo(format, stride, height)`. `PixelFormat` is reduced to the five formats the operations accept plus `Other`.
- **Runtime exceptions** from an index outside the array, or from Array.Copy's argument checks, are not modelled. The inputs that would raise them are excluded by preconditions.
- ChannelFlip.Admissible: asks for a positive pixel size and an existing first byte at the channel offset. With pixel size 0 the source loops forever or rewrites one byte repeatedly, and an offset beyond the buffer throws IndexOutOfRangeException.
- ChannelSwap.Admissible: asks for a buffer of whole pixels with both offsets inside a pixel. This excludes two kinds of padded buffer. On some the source finishes without error: a 1×1 24bpp bitmap has 4 bytes of stride at pixel size 3, and SwapChannel(1, 2) exchanges bytes 1 and 2 and stops. On others the second cursor runs past the end and throws IndexOutOfRangeException, after the earlier pixels have already been rewritten. Neither case is modelled.
- Normalization.Admissible: asks for a buffer of whole pixels with room for three colour bytes after the leading bytes. This excludes two kinds of padded buffer. On some the source finishes without error: a 7-byte 32bppRgb buffer has its bytes 0..2 and 4..6 normalized. On others a read past the end throws IndexOutOfRangeException, after the earlier pixels have already been rewritten. Neither case is modelled.
- RowInversion.Admissible: excludes a negative stride with no rows, where `new byte[stride]` throws OverflowException. With two or more rows of positive stride, it asks for all rows inside the buffer, where Array.Copy would otherwise throw.
- **Default names** are modelled for channels 0..2 only. Those are the only channels a constructor accepts, and the source builds its interpolated default name before the channel is validated.
- **Stride in the channel operations.** FlipChannel, SwapChannel and Normalize ignore the stride, as the source does. The cursor runs over the whole buffer, row padding included.
- **Memory order of the ARGB layouts.** The source takes the first byte of a 32bppArgb or 32bppPArgb pixel to be the one it skips, with red, green and blue after it. The model follows that offset table. It does not model GDI+'s own byte order, in which a 32bppArgb pixel is stored as blue, green, red, alpha.
