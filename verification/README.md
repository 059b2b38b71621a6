# BMP → RGB565 row decoder of `draw_bmp_32`

This project models `draw_bmp_32` from `esp32tft/image.py`. The function reads
a Windows BMP file and paints it on a 128×160 ST7735 TFT, one line at a time.

It works in five steps:

1. It checks the `BM` signature.
2. It reads four little-endian header fields at fixed offsets: `bfOffBits` at 10, `biWidth` at 18, `biHeight` at 22 and `biBitCount` at 28.
3. It rejects any depth other than 24 or 32 bits.
4. It seeks to `bfOffBits` and reads pixels one after another as B, G, R (and an ignored fourth byte at 32 bits).
5. It converts each pixel to RGB565 and writes it big-endian into a `2 * width` byte row buffer. Each finished row is sent to `tft.image(0, y, width - 1, y, row)`, with `y` running from `height - 1` down to `0`.

The file is a byte sequence (`seq<byte>`, bytes as integers 0..255), and
`f.seek`/`f.read` is `Bytes.Read`. The display is the list of `tft.image`
calls the function makes (`BmpDraw.DrawEvent`), together with how the
function ended (`BmpDraw.Exit`).

The model has four modules:

- `Bytes`: bytes, little-endian fields, and the file read.
- `Rgb565`: colour conversion and the packing of a row buffer.
- `BmpHeader`: the signature, the field reads and the depth check.
- `BmpDraw`: the loops, and their closed-form description.

`BmpDraw.DrawBmp32` follows the source's nested loops, with a file cursor. It
is proved equal to `BmpDraw.Reference`, which says directly which file bytes
every drawn pixel comes from. `BmpProperties` states the decoder's promises
over `Reference`, and through that equality they hold for the loops too.

The bit operations are written as arithmetic, because all operands are small
non-negative integers:

- `x >> n` is `x / 2^n`.
- `x << n` is `x * 2^n`.
- Masking a byte with `0xF8` (`0xFC`) clears its low 3 (2) bits.
- `& 0xFF` is `% 256`.
- `|` of disjoint bit fields is `+`.

Behaviour at the ends of the data, as the code has it:

- If the file ends inside the header (a file of fewer than 30 bytes that starts with `BM`), `struct.unpack` raises. The handler prints the error and nothing is drawn (`HeaderTruncated`).
- If a pixel read comes back empty (the data ended on a pixel boundary, or the offset lies past the end of the file), the inner loop stops. The rest of that row buffer stays zero and the row is still drawn. Every later row is then drawn all zero.
- If a pixel read comes back with one or two bytes, this does **not** end the data quietly. Indexing `pixel[1]` or `pixel[2]` raises `IndexError`, the handler ends the function, and that row is **not** drawn (`PixelTruncated`). Only an empty read gives the "missing pixels stay black" behaviour.
- In 32-bit mode, a final read of three bytes is a complete B, G, R pixel and is drawn.
- Rows follow one another with no padding skipped, and the model follows the code in this. The height is read as an unsigned 32-bit count, so a top-down (negative-height) file is not recognised as one. The row loop runs for heights above 2^31 too and draws rows, as the model does.

## Model

| member | source | states |
|---|---|---|
| Bytes.Read | esp32tft/image.py:95 | a read returns at most `n` bytes, exactly `n` when the file holds them, none at or past the end, the remaining `|file| - pos` bytes when it ends early, and byte `i` of the result is file byte `pos + i` |
| Bytes.Le16RoundTrip | esp32tft/image.py:72 | the `<H` decoding of the two little-endian bytes of any 16-bit value gives that value back |
| Bytes.Le16Injective | esp32tft/image.py:72 | any two bytes are the little-endian encoding of their `<H` value, so the decoding loses nothing |
| Bytes.Le32RoundTrip | esp32tft/image.py:65-69 | the `<I` decoding of the four little-endian bytes of any 32-bit value gives that value back |
| Bytes.Le32Injective | esp32tft/image.py:65-69 | any four bytes are the little-endian encoding of their `<I` value |
| Bytes.Le16 | esp32tft/image.py:72 | the `<H` value of two bytes is below 2^16 |
| Bytes.Le32 | esp32tft/image.py:65-69 | the `<I` value of four bytes is below 2^32; its low 16 bits are the `<H` value of the first two bytes and its high 16 bits that of the last two |
| BmpHeader.ParseHeader | esp32tft/image.py:56-77 | the result is `NotBmp` exactly when the file does not start with `B`, `M`; it is `HeaderTruncated` exactly when the signature is there but the file is shorter than 30 bytes; a rejected depth is the 16-bit value at bytes 28..29 and is neither 24 nor 32; an accepted header holds the 32-bit little-endian values at 10, 18 and 22 and the 16-bit value at 28, and its depth is 24 or 32 |
| BmpHeader.HeaderRoundTrip | esp32tft/image.py:64-79 | any header with 32-bit fields and depth 24 or 32, written at the fixed offsets, parses back to itself |
| BmpHeader.UnsupportedDepthRejected | esp32tft/image.py:71-77 | a header with any other depth is rejected and the rejection names that depth |
| BmpHeader.BytesPerPixel | esp32tft/image.py:79 | an accepted depth reads 3 bytes per pixel at 24 bits and 4 at 32 bits |
| Rgb565.Color565 | esp32tft/image.py:104 | the converted colour is below 2^16; bits 15..11 are `r >> 3`, bits 10..5 are `g >> 2`, bits 4..0 are `b >> 3` |
| Rgb565.ColorRoundTrip | esp32tft/image.py:104 | expanding any 16-bit colour to its 8-bit channels and converting it again gives the same colour |
| Rgb565.ConversionQuantises | esp32tft/image.py:104 | conversion keeps exactly the top 5, 6 and 5 bits of red, green and blue and clears the rest |
| Rgb565.ConversionIdempotent | esp32tft/image.py:104 | converting an already-converted colour's channels again changes nothing |
| Rgb565.SplitJoin | esp32tft/image.py:107-108 | the high byte times 256 plus the low byte is the colour again |
| Rgb565.PackRow | esp32tft/image.py:91 | a packed row is exactly twice as long as its line of colours, i.e. `width * 2` bytes |
| Rgb565.PackedColumn | esp32tft/image.py:107-108 | bytes `2x` and `2x + 1` of a packed row are the high and low bytes of colour `x`, and joining them gives colour `x` back |
| Rgb565.RowRoundTrip | esp32tft/image.py:107-108 | reading a packed row back pair by pair gives the original colours |
| Rgb565.PackBlack | esp32tft/image.py:91 | a line of unwritten (black) colours packs to the zero-filled `bytearray(2 * width)` |
| Rgb565.PackRowUpdate | esp32tft/image.py:107-108 | writing one colour's two bytes at `2x` and `2x + 1` gives the packed row of the line with colour `x` replaced, and changes no other byte |
| BmpDraw.DrawBmp32 | esp32tft/image.py:51-115 | the loops, run on any file, make exactly the draw calls and end exactly as `Reference` says |
| BmpDraw.ReadRow | esp32tft/image.py:91-108 | the inner loop reports a fault exactly when some pixel of the row reads one or two bytes; otherwise its buffer is the packed colours of the row's pixels (missing pixels black), and the cursor ends where the next row's first read begins |
| BmpDraw.ConvertPixel | esp32tft/image.py:95-108 | the status is `NoData` exactly when the read is empty and `TooShort` exactly when it returns one or two bytes; an empty read ends the row with the rest of the buffer black and no later fault in the row; a one- or two-byte read is a fault in the row; a full read writes the pixel's colour into its two buffer bytes and moves the cursor to the next pixel |
| BmpDraw.Reference | esp32tft/image.py:51-115 | a rejected header stops with no draw calls and the same reason; otherwise at most `height` calls are made, the run completes exactly when all `height` are made, and call `i` covers columns `0..width-1` of line `height - 1 - i` with a `2 * width` byte buffer |
| BmpDraw.ReferenceAccepted | esp32tft/image.py:79-112 | for an accepted header the draw calls are the first `RowsDrawn` rows in reading order, and the run is cut short exactly when fewer than `height` rows are drawn |
| BmpDraw.RowEventColumn | esp32tft/image.py:107-108 | byte `2x` and byte `2x + 1` of a row's buffer are the high and low bytes of that row's pixel in column `x` |
| BmpDraw.FaultPixelIsFault | esp32tft/image.py:95-99 | the closed-form fault pixel is exactly the pixel whose read stops one or two bytes short |
| BmpDraw.Exhausted | esp32tft/image.py:83-96 | once a pixel starts at or past the end of the file, every later pixel reads empty, the cursor no longer moves, and no later pixel faults |
| BmpDraw.ReadPixel | esp32tft/image.py:95-96 | a pixel read at the cursor is empty exactly when the pixel starts at or past the end, is one or two bytes exactly when it faults, and is complete exactly when B, G, R are all in the file, in which case the cursor moves to the next pixel's start |
| BmpDraw.ReadPixelColor | esp32tft/image.py:95-104 | a complete pixel read, taken in B, G, R order, converts to that pixel's colour |
| BmpDraw.AllRowsDrawn | esp32tft/image.py:88-112 | if no pixel of the image faults, every one of the `height` rows is drawn |
| BmpDraw.RowsBeforeFault | esp32tft/image.py:88-115 | a faulting pixel in the `j`-th row read leaves exactly `j` rows drawn |
| BmpDraw.EmptyRow | esp32tft/image.py:91 | the fresh zero-filled buffer is the packed row with no pixel converted yet |
| BmpDraw.ReadStep | esp32tft/image.py:95-104 | a full read at column `x` yields that pixel's colour, moves the cursor to the next pixel and extends the fault-free prefix by one |
| BmpDraw.RowStep | esp32tft/image.py:107-108 | writing column `x`'s colour into the buffer gives the row with one more pixel converted |
| BmpDraw.ExhaustedRow | esp32tft/image.py:95-96 | an empty read at column `x` leaves the rest of the row black, the cursor at the row's end position, and no fault in the row |
| BmpDraw.FaultInRow | esp32tft/image.py:95-99 | a one- or two-byte read at column `x` is a fault among the row's pixels |
| BmpProperties.NotBmpDrawsNothing | esp32tft/image.py:56-58 | a file that does not start with `B`, `M` draws nothing and stops as not a BMP |
| BmpProperties.UnsupportedDepthDrawsNothing | esp32tft/image.py:71-77 | a full header with a depth other than 24 or 32 draws nothing and names the depth read from bytes 28..29 |
| BmpProperties.RowsDescend | esp32tft/image.py:88-112 | later draw calls are for strictly lower line numbers |
| BmpProperties.CompletedDrawsEveryLine | esp32tft/image.py:88-112 | a completed run draws every line `0..height-1`, and each line exactly once |
| BmpProperties.PixelComesFromItsPosition | esp32tft/image.py:83-108 | column `x` of the `j`-th row read holds the colour of the B, G, R bytes at `offset + (j * width + x) * bytes_per_pixel`, big-endian, when those bytes are in the file |
| BmpProperties.StartOfPixel | esp32tft/image.py:79-95 | the `k`-th pixel read starts at `offset + k * bytes_per_pixel` |
| BmpProperties.DrawCallIsRow | esp32tft/image.py:88-112 | the `j`-th draw call is the `j`-th row read |
| BmpProperties.RowHolds | esp32tft/image.py:107-112 | bytes `2x` and `2x + 1` of the `j`-th draw call hold pixel `j * width + x`'s colour, high byte first |
| BmpProperties.MissingPixelIsBlack | esp32tft/image.py:91-112 | a pixel of a drawn row that starts at or past the end of the file leaves both of its buffer bytes `0` |
| BmpProperties.RunningOutStillDrawsEveryRow | esp32tft/image.py:88-112 | if the data never ends one or two bytes into a pixel, all `height` rows are drawn and the run completes, however early the data ends |
| BmpProperties.ShortPixelStopsBeforeItsRow | esp32tft/image.py:95-115 | if the file ends one or two bytes into pixel `x` of the `j`-th row read, the run ends cut short after exactly `j` draw calls |
| BmpProperties.FaultStopsBeforeItsRow | esp32tft/image.py:95-115 | a faulting pixel in the `j`-th row read cuts the run short after exactly `j` draw calls |
| BmpProperties.FourthByteIgnored | esp32tft/image.py:95-99 | in 32-bit mode, changing the fourth byte of any pixel whose fourth byte lies at or after byte 30 changes nothing that is drawn |
| BmpProperties.HeaderIgnoresPixelBytes | esp32tft/image.py:64-72 | the header fields are read from bytes 0..29 only, so changing any later byte leaves the parse unchanged |
| BmpProperties.FourthByteColor | esp32tft/image.py:95-104 | in 32-bit mode no pixel's colour depends on the fourth byte of any pixel |
| BmpProperties.RowIgnoresFourthByte | esp32tft/image.py:93-104 | in 32-bit mode the colours of a row do not depend on the fourth byte of any pixel |

## Left out

- Hardware setup: the SPI bus, the PWM backlight, TFT construction and the `initr`, `invertcolor`, `rgb` and `fill` calls (esp32tft/image.py:1-45). These are device configuration through foreign libraries.
- The `st7735` driver behind `tft.image`: it is not part of this model. Its calls are recorded as `DrawEvent`s.
- `open` and the OS file: the file is an in-memory byte sequence. A file that cannot be opened (also caught by the handler) is not modelled.
- `print` diagnostics and the text of the caught exception: the model keeps only which exit was taken (`Exit`).
- `MemoryError` (or `OverflowError`) from `bytearray(width * 2)` for huge widths, and the time taken: the model has unbounded memory.
- The top-level call with a fixed file name (esp32tft/image.py:121).
- BMP row padding to 4 bytes, negative (top-down) heights and compressed formats: the code ignores them, and the model follows the code.
- The arcade shooting game described alongside the decoder: none of its source is part of this model.
- BmpDraw.DrawBmp32: integers are unbounded. On MicroPython for the ESP32, `f.seek(offset)` converts its argument to a signed 32-bit word and raises `OverflowError` when `offset >= 2^31`; the handler catches it and nothing is drawn. The model instead seeks past the end and draws every row black, as `RunningOutStillDrawsEveryRow` states.
- BmpDraw.Reference: like `DrawBmp32`, it uses unbounded integers, so it draws rows for `offset >= 2^31`, where MicroPython's `f.seek` raises before the first draw.
- BmpDraw.RowsDrawn: its own contract states only that no more than `height` rows are drawn. What the count means is stated by `AllRowsDrawn`, `RowsBeforeFault` and `FaultPixelIsFault`.
