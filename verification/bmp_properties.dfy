/**
 * What the draw calls of `draw_bmp_32` (esp32tft/image.py) promise, stated
 * over `BmpDraw.Reference` and so, through `BmpDraw.DrawBmp32`, over the
 * loops themselves.
 */
module BmpProperties {
  import opened Bytes
  import opened Rgb565
  import opened BmpHeader
  import opened BmpDraw

  /** A file without the `BM` signature draws nothing. */
  lemma NotBmpDrawsNothing(file: seq<byte>)
    requires !(|file| >= 2 && file[0] == 'B' as byte && file[1] == 'M' as byte)
    ensures Reference(file) == Outcome([], Stopped(NotBmp))
  {
  }

  /** A bit depth other than 24 or 32 draws nothing and names the depth read. */
  lemma UnsupportedDepthDrawsNothing(file: seq<byte>)
    requires |file| >= HeaderEnd && file[0] == 'B' as byte && file[1] == 'M' as byte
    requires file[28] as int + file[29] as int * 0x100 !in {24, 32}
    ensures Reference(file) == Outcome([], Stopped(UnsupportedDepth(file[28] as int + file[29] as int * 0x100)))
  {
    assert HasSignature(file) by {
      assert Read(file, 0, 2) == file[0..2];
    }
  }

  /** Later draw calls are for lines strictly higher up the screen. */
  lemma RowsDescend(file: seq<byte>, i: nat, i': nat)
    requires ParseHeader(file).Accepted?
    requires i < i' < |Reference(file).events|
    ensures Reference(file).events[i].y0 > Reference(file).events[i'].y0
  {
  }

  /** A completed run draws every line `0..height-1`, exactly once each. */
  lemma CompletedDrawsEveryLine(file: seq<byte>, h: Header, y: int)
    requires ParseHeader(file) == Accepted(h)
    requires Reference(file).exit == Completed
    requires 0 <= y < h.height
    ensures |Reference(file).events| == h.height
    ensures Reference(file).events[h.height - 1 - y].y0 == y
    ensures forall i :: 0 <= i < |Reference(file).events| && Reference(file).events[i].y0 == y ==>
      i == h.height - 1 - y
  {
  }

  /**
   * Column `x` of the `j`-th row read holds pixel number `j * width + x`,
   * whose bytes start at `PixelStart`, that is at
   * `offset + (j * width + x) * bytes_per_pixel` (`StartOfPixel`), and are
   * read B, G, R; the two buffer bytes hold its colour big-endian.
   */
  lemma PixelComesFromItsPosition(file: seq<byte>, h: Header, j: nat, x: nat)
    requires ParseHeader(file) == Accepted(h)
    requires j < |Reference(file).events| && x < h.width
    requires PixelStart(h, RowStart(h, j) + x) + 3 <= |file|
    ensures var p := PixelStart(h, RowStart(h, j) + x);
      var row := Reference(file).events[j].data;
      && row[2 * x] == HighByte(Color565(file[p + 2], file[p + 1], file[p]))
      && row[2 * x + 1] == LowByte(Color565(file[p + 2], file[p + 1], file[p]))
      && Join(row[2 * x], row[2 * x + 1]) == Color565(file[p + 2], file[p + 1], file[p])
  {
    RowHolds(file, h, j, x);
    SplitJoin(PixelColor(file, h, RowStart(h, j) + x));
  }

  /** The start of pixel `k` is `offset + k * bytes_per_pixel`. */
  lemma StartOfPixel(h: Header, k: nat)
    requires Supported(h)
    ensures PixelStart(h, k) == h.offset + k * BytesPerPixel(h)
  {
  }

  /** The `j`-th draw call is the `j`-th row read. */
  lemma DrawCallIsRow(file: seq<byte>, h: Header, j: nat)
    requires ParseHeader(file) == Accepted(h)
    requires j < |Reference(file).events|
    ensures Reference(file).events[j] == RowEvent(file, h, j)
  {
    ReferenceAccepted(file, h);
  }

  /** Column `x` of the `j`-th draw call holds pixel `j * width + x`, big-endian. */
  lemma RowHolds(file: seq<byte>, h: Header, j: nat, x: nat)
    requires ParseHeader(file) == Accepted(h)
    requires j < |Reference(file).events| && x < h.width
    ensures Reference(file).events[j].data[2 * x] == HighByte(PixelColor(file, h, RowStart(h, j) + x))
    ensures Reference(file).events[j].data[2 * x + 1] == LowByte(PixelColor(file, h, RowStart(h, j) + x))
  {
    DrawCallIsRow(file, h, j);
    RowEventColumn(file, h, j, x);
  }

  /**
   * When the pixel data ends at a pixel boundary, the missing pixels of a
   * drawn row stay `0` in its buffer.
   */
  lemma MissingPixelIsBlack(file: seq<byte>, h: Header, j: nat, x: nat)
    requires ParseHeader(file) == Accepted(h)
    requires j < |Reference(file).events| && x < h.width
    requires h.offset + (RowStart(h, j) + x) * BytesPerPixel(h) >= |file|
    ensures Reference(file).events[j].data[2 * x] == 0
    ensures Reference(file).events[j].data[2 * x + 1] == 0
  {
    StartOfPixel(h, RowStart(h, j) + x);
    assert PixelColor(file, h, RowStart(h, j) + x) == 0;
    RowHolds(file, h, j, x);
    assert HighByte(0) == 0 && LowByte(0) == 0;
  }

  /**
   * When no pixel read of the image comes back one or two bytes long, every
   * row is drawn, however early the data ends.
   */
  lemma RunningOutStillDrawsEveryRow(file: seq<byte>, h: Header)
    requires ParseHeader(file) == Accepted(h)
    requires forall k :: 0 <= k < h.height * h.width ==>
      !(h.offset + k * BytesPerPixel(h) < |file| < h.offset + k * BytesPerPixel(h) + 3)
    ensures Reference(file).exit == Completed
    ensures |Reference(file).events| == h.height
  {
    forall k | 0 <= k < h.height * h.width
      ensures !Faults(file, h, k)
    {
      StartOfPixel(h, k);
    }
    AllRowsDrawn(file, h);
    ReferenceAccepted(file, h);
  }

  /**
   * A pixel read of one or two bytes in the `j`-th row ends the decoder:
   * exactly the `j` rows before it were drawn, and its own row is not.
   */
  lemma ShortPixelStopsBeforeItsRow(file: seq<byte>, h: Header, j: nat, x: nat)
    requires ParseHeader(file) == Accepted(h)
    requires j < h.height && x < h.width
    requires h.offset + (RowStart(h, j) + x) * BytesPerPixel(h) < |file|
    requires |file| < h.offset + (RowStart(h, j) + x) * BytesPerPixel(h) + 3
    ensures Reference(file).exit == PixelTruncated
    ensures |Reference(file).events| == j
  {
    StartOfPixel(h, RowStart(h, j) + x);
    FaultStopsBeforeItsRow(file, h, j, RowStart(h, j) + x);
  }

  lemma FaultStopsBeforeItsRow(file: seq<byte>, h: Header, j: nat, k: nat)
    requires ParseHeader(file) == Accepted(h)
    requires j < h.height && RowStart(h, j) <= k < RowStart(h, j) + h.width && Faults(file, h, k)
    ensures Reference(file).exit == PixelTruncated
    ensures |Reference(file).events| == j
  {
    RowsBeforeFault(file, h, j, k);
    ReferenceAccepted(file, h);
  }

  /** In 32-bit mode the fourth byte of a pixel changes nothing drawn. */
  lemma FourthByteIgnored(file: seq<byte>, h: Header, k: nat, v: byte)
    requires ParseHeader(file) == Accepted(h) && h.bitDepth == 32
    requires HeaderEnd <= h.offset + 4 * k + 3 < |file|
    ensures Reference(file[h.offset + 4 * k + 3 := v]) == Reference(file)
  {
    var q := h.offset + 4 * k + 3;
    var file' := file[q := v];
    HeaderIgnoresPixelBytes(file, q, v);
    var n := RowsDrawn(file, h);
    assert RowsDrawn(file', h) == n;
    forall j | 0 <= j < n
      ensures Events(file', h, n)[j] == Events(file, h, n)[j]
    {
      RowIgnoresFourthByte(file, h, k, v, RowStart(h, j));
    }
    ReferenceAccepted(file, h);
    ReferenceAccepted(file', h);
  }

  /** No colour of a row depends on the fourth byte of any 32-bit pixel. */
  lemma RowIgnoresFourthByte(file: seq<byte>, h: Header, k: nat, v: byte, first: nat)
    requires Supported(h) && h.bitDepth == 32
    requires h.offset + 4 * k + 3 < |file|
    ensures RowColors(file[h.offset + 4 * k + 3 := v], h, first) == RowColors(file, h, first)
  {
    var file' := file[h.offset + 4 * k + 3 := v];
    forall x | 0 <= x < h.width
      ensures RowColors(file', h, first)[x] == RowColors(file, h, first)[x]
    {
      FourthByteColor(file, h, k, v, first + x);
    }
  }

  /** Bytes past the header do not change how it parses. */
  lemma HeaderIgnoresPixelBytes(file: seq<byte>, q: nat, v: byte)
    requires HeaderEnd <= q < |file|
    ensures ParseHeader(file[q := v]) == ParseHeader(file)
  {
    var file' := file[q := v];
    assert Read(file', 0, 2) == Read(file, 0, 2);
    assert file'[10..14] == file[10..14] && file'[18..22] == file[18..22];
    assert file'[22..26] == file[22..26] && file'[28..30] == file[28..30];
  }

  /** The fourth byte of pixel `k` is not among the B, G, R bytes of any pixel. */
  lemma FourthByteColor(file: seq<byte>, h: Header, k: nat, v: byte, k': nat)
    requires Supported(h) && h.bitDepth == 32
    requires h.offset + 4 * k + 3 < |file|
    ensures PixelColor(file[h.offset + 4 * k + 3 := v], h, k') == PixelColor(file, h, k')
  {
    var q := h.offset + 4 * k + 3;
    if Decoded(file, h, k') {
      var p := PixelStart(h, k');
      assert p != q && p + 1 != q && p + 2 != q;
    }
  }
}
