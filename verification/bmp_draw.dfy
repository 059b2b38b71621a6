/**
 * The pixel walk of `draw_bmp_32` (esp32tft/image.py): after the header
 * checks, pixels are read one after another from `bfOffBits`, converted to
 * RGB565, packed into a `2 * width`-byte row buffer, and each row is sent to
 * the display as `tft.image(0, y, width - 1, y, row)` for `y` from
 * `height - 1` down to `0`. The display is a list of those calls.
 *
 * `DrawBmp32` follows the source's loops; `Reference` says in closed form
 * which bytes every pixel comes from, and the two are proved equal.
 */
module BmpDraw {
  import opened Bytes
  import opened Rgb565
  import opened BmpHeader

  /** One `tft.image(x0, y0, x1, y1, data)` call. */
  datatype DrawEvent = Image(x0: int, y0: int, x1: int, y1: int, data: seq<byte>)

  /** How the decoder ends. */
  datatype Exit =
    | Completed                  // every row was drawn
    | Stopped(reason: Rejection) // a header check failed; nothing was drawn
    | PixelTruncated             // a pixel read returned one or two bytes, so `pixel[1]` or `pixel[2]` raised

  datatype Outcome = Outcome(events: seq<DrawEvent>, exit: Exit)

  /*** Where pixels come from ***/

  /**
   * File position of the `k`-th pixel read, counting from the first pixel of
   * the first row read: `offset + k * bytes_per_pixel`, since rows follow one
   * another with no padding skipped.
   */
  function PixelStart(h: Header, k: nat): nat
    requires Supported(h)
  {
    if h.bitDepth == 24 then h.offset + 3 * k else h.offset + 4 * k
  }

  /**
   * The file position before the `k`-th pixel read: `f.seek(offset)` may
   * land past the end, and a short read stops the cursor at the end.
   */
  function Cursor(file: seq<byte>, h: Header, k: nat): nat
    requires Supported(h)
  {
    if PixelStart(h, k) <= |file| then PixelStart(h, k)
    else if h.offset <= |file| then |file|
    else h.offset
  }

  /** At least the B, G and R bytes of pixel `k` are in the file. */
  predicate Decoded(file: seq<byte>, h: Header, k: nat)
    requires Supported(h)
  {
    PixelStart(h, k) + 3 <= |file|
  }

  /** The file ends one or two bytes into pixel `k`. */
  predicate Faults(file: seq<byte>, h: Header, k: nat)
    requires Supported(h)
  {
    PixelStart(h, k) < |file| < PixelStart(h, k) + 3
  }

  /** Colour of pixel `k`: its bytes are B, G, R; a missing pixel stays 0. */
  function PixelColor(file: seq<byte>, h: Header, k: nat): color565
    requires Supported(h)
  {
    if Decoded(file, h, k) then
      var p := PixelStart(h, k);
      Color565(file[p + 2], file[p + 1], file[p])
    else Black
  }

  /** The colour of an unwritten slot of `bytearray(width * 2)`. */
  const Black: color565 := 0

  datatype Option<T> = None | Some(value: T)

  /** The one pixel whose read comes back one or two bytes long, if any. */
  function FaultPixel(file: seq<byte>, h: Header): Option<nat>
    requires Supported(h)
  {
    if |file| <= h.offset then None
    else
      var d := |file| - h.offset;
      if h.bitDepth == 24 then
        if d % 3 == 0 then None else Some(d / 3)
      else
        if d % 4 == 0 || d % 4 == 3 then None else Some(d / 4)
  }

  /** Number of rows drawn: all of them, unless a pixel read faults first. */
  function RowsDrawn(file: seq<byte>, h: Header): (n: nat)
    requires Supported(h)
    ensures n <= h.height
  {
    match FaultPixel(file, h)
    case Some(k) =>
      if k < PixelCount(h) then
        RowIndexBound(h.width, h.height, k);
        k / h.width
      else h.height
    case None => h.height
  }

  /** Number of pixels in the image. */
  function PixelCount(h: Header): nat
  {
    h.height * h.width
  }

  /** Index of the first pixel of the `j`-th row read: `j * width`. */
  function RowStart(h: Header, j: nat): nat
  {
    j * h.width
  }

  /** Consecutive rows are `width` pixels apart. */
  lemma RowStartNext(h: Header, j: nat)
    ensures RowStart(h, j + 1) == RowStart(h, j) + h.width
  {
    assert (j + 1) * h.width == j * h.width + h.width;
  }

  /** Colours of the row whose first pixel is the `first`-th pixel read. */
  function RowColors(file: seq<byte>, h: Header, first: nat): seq<color565>
    requires Supported(h)
  {
    seq<color565>(h.width, x requires 0 <= x => PixelColor(file, h, first + x))
  }

  /** The draw call for the `j`-th row read: it lands on line `height - 1 - j`. */
  function RowEvent(file: seq<byte>, h: Header, j: nat): DrawEvent
    requires Supported(h)
  {
    var y := h.height - 1 - j;
    Image(0, y, h.width - 1, y, PackRow(RowColors(file, h, RowStart(h, j))))
  }

  /** The draw calls for the first `n` rows read. */
  function Events(file: seq<byte>, h: Header, n: nat): seq<DrawEvent>
    requires Supported(h)
  {
    seq(n, j requires 0 <= j => RowEvent(file, h, j))
  }

  /** Everything `draw_bmp_32` does, stated directly. */
  function Reference(file: seq<byte>): (out: Outcome)
    ensures out.exit.Stopped? <==> ParseHeader(file).Rejected?
    ensures out.exit.Stopped? ==> out.events == [] && out.exit.reason == ParseHeader(file).reason
    ensures ParseHeader(file).Accepted? ==>
      var h := ParseHeader(file).header;
      && |out.events| <= h.height
      && (out.exit == Completed <==> |out.events| == h.height)
      && forall i :: 0 <= i < |out.events| ==>
           && out.events[i].x0 == 0 && out.events[i].x1 == h.width - 1
           && out.events[i].y0 == out.events[i].y1 == h.height - 1 - i
           && |out.events[i].data| == 2 * h.width
  {
    match ParseHeader(file)
    case Rejected(reason) => Outcome([], Stopped(reason))
    case Accepted(h) =>
      var n := RowsDrawn(file, h);
      Outcome(Events(file, h, n), if n < h.height then PixelTruncated else Completed)
  }

  /** For an accepted header, the draw calls are the first `RowsDrawn` rows. */
  lemma ReferenceAccepted(file: seq<byte>, h: Header)
    requires ParseHeader(file) == Accepted(h)
    ensures Supported(h)
    ensures Reference(file).events == Events(file, h, RowsDrawn(file, h))
    ensures |Reference(file).events| == RowsDrawn(file, h)
    ensures Reference(file).exit == (if RowsDrawn(file, h) < h.height then PixelTruncated else Completed)
  {
  }

  /** Column `x` of the `j`-th row's buffer holds pixel `RowStart(h, j) + x`, big-endian. */
  lemma RowEventColumn(file: seq<byte>, h: Header, j: nat, x: nat)
    requires Supported(h) && x < h.width
    ensures var c := PixelColor(file, h, RowStart(h, j) + x);
      var row := RowEvent(file, h, j).data;
      |row| == 2 * h.width && row[2 * x] == HighByte(c) && row[2 * x + 1] == LowByte(c)
  {
    var cs := RowColors(file, h, RowStart(h, j));
    assert cs[x] == PixelColor(file, h, RowStart(h, j) + x);
    PackedColumn(cs, x);
  }

  /*** Facts about the cursor ***/

  /** `FaultPixel` names exactly the pixel whose read is one or two bytes short. */
  lemma FaultPixelIsFault(file: seq<byte>, h: Header, k: nat)
    requires Supported(h)
    ensures FaultPixel(file, h) == Some(k) <==> Faults(file, h, k)
  {
  }

  /** Once the cursor is at or past the end, every later pixel is missing. */
  lemma Exhausted(file: seq<byte>, h: Header, k: nat, k': nat)
    requires Supported(h) && PixelStart(h, k) >= |file| && k <= k'
    ensures PixelStart(h, k') >= |file|
    ensures Cursor(file, h, k') == Cursor(file, h, k)
    ensures !Decoded(file, h, k') && !Faults(file, h, k')
    ensures FaultPixel(file, h) == None || FaultPixel(file, h).value < k
  {
    match FaultPixel(file, h)
    case None =>
    case Some(f) =>
      FaultPixelIsFault(file, h, f);
  }

  /** What one `f.read(bytes_per_pixel)` at the cursor returns. */
  lemma ReadPixel(file: seq<byte>, h: Header, k: nat)
    requires Supported(h)
    ensures var r := Read(file, Cursor(file, h, k), BytesPerPixel(h));
      && (|r| == 0 <==> PixelStart(h, k) >= |file|)
      && (0 < |r| < 3 <==> Faults(file, h, k))
      && (3 <= |r| <==> Decoded(file, h, k))
      && (3 <= |r| ==>
            && Cursor(file, h, k) == PixelStart(h, k)
            && Cursor(file, h, k) + |r| == Cursor(file, h, k + 1))
  {
  }

  /** A full read at the cursor yields the pixel's colour from its B, G, R bytes. */
  lemma ReadPixelColor(file: seq<byte>, h: Header, k: nat)
    requires Supported(h) && Decoded(file, h, k)
    ensures var r := Read(file, Cursor(file, h, k), BytesPerPixel(h));
      3 <= |r| && Color565(r[2], r[1], r[0]) == PixelColor(file, h, k)
  {
    var p := PixelStart(h, k);
    var r := Read(file, Cursor(file, h, k), BytesPerPixel(h));
    assert r[0] == file[p] && r[1] == file[p + 1] && r[2] == file[p + 2];
  }

  lemma MulMono(a: nat, b: nat, w: nat)
    requires a <= b
    ensures a * w <= b * w
  {
  }

  lemma MulCancel(a: nat, b: nat, w: nat)
    requires a * w < b * w
    ensures a < b
  {
  }

  /** A pixel index below `hgt * w` lies in one of the first `hgt` rows of `w` pixels. */
  lemma RowIndexBound(w: nat, hgt: nat, k: nat)
    requires k < hgt * w
    ensures k / w < hgt
  {
    assert (k / w) * w <= k;
    MulCancel(k / w, hgt, w);
  }

  /** The pixel index of column `x` in row `j` lies in that row. */
  lemma RowOfPixel(w: nat, hgt: nat, j: nat, x: nat)
    requires x < w && j < hgt
    ensures (j * w + x) / w == j
    ensures j * w + x < hgt * w
  {
    var q := j * w + x;
    assert (j + 1) * w == j * w + w;
    MulMono(j + 1, hgt, w);
    var d := q / w;
    assert q == d * w + q % w;
    if d < j {
      assert (d + 1) * w == d * w + w;
      MulMono(d + 1, j, w);
    } else if d > j {
      MulMono(j + 1, d, w);
    }
  }

  /** No pixel read before the `k`-th comes back one or two bytes long. */
  predicate NoFaultBefore(file: seq<byte>, h: Header, k: nat)
    requires Supported(h)
  {
    forall k' :: 0 <= k' < k ==> !Faults(file, h, k')
  }

  /** Without a fault among the image's pixels, every row is drawn. */
  lemma AllRowsDrawn(file: seq<byte>, h: Header)
    requires Supported(h) && NoFaultBefore(file, h, PixelCount(h))
    ensures RowsDrawn(file, h) == h.height
  {
    match FaultPixel(file, h)
    case None =>
    case Some(f) =>
      FaultPixelIsFault(file, h, f);
  }

  /** A fault at a pixel of the `j`-th row read leaves exactly `j` rows drawn. */
  lemma RowsBeforeFault(file: seq<byte>, h: Header, j: nat, f: nat)
    requires Supported(h) && j < h.height
    requires RowStart(h, j) <= f < RowStart(h, j) + h.width && Faults(file, h, f)
    ensures RowsDrawn(file, h) == j < h.height
  {
    FaultPixelIsFault(file, h, f);
    RowOfPixel(h.width, h.height, j, f - RowStart(h, j));
  }

  /*** The loops, as written ***/

  /** The row buffer's colours once its first `x` pixels were converted. */
  function PartialColors(file: seq<byte>, h: Header, first: nat, x: nat): seq<color565>
    requires Supported(h)
  {
    seq<color565>(h.width, i requires 0 <= i => (if i < x then PixelColor(file, h, first + i) else Black) as color565)
  }

  lemma PartialNone(file: seq<byte>, h: Header, first: nat)
    requires Supported(h)
    ensures PartialColors(file, h, first, 0) == seq(h.width, _ => Black)
  {
    var a := PartialColors(file, h, first, 0);
    forall i | 0 <= i < h.width
      ensures a[i] == Black
    {
    }
  }

  /** `bytearray(width * 2)` is the buffer of a row with nothing converted yet. */
  lemma EmptyRow(file: seq<byte>, h: Header, first: nat)
    requires Supported(h)
    ensures seq(h.width * 2, _ => 0) == PackRow(PartialColors(file, h, first, 0))
  {
    PackBlack(h.width);
    PartialNone(file, h, first);
  }

  lemma PartialAll(file: seq<byte>, h: Header, first: nat)
    requires Supported(h)
    ensures PartialColors(file, h, first, h.width) == RowColors(file, h, first)
  {
    var a, b := PartialColors(file, h, first, h.width), RowColors(file, h, first);
    forall i | 0 <= i < h.width
      ensures a[i] == b[i]
    {
    }
  }

  lemma PartialStep(file: seq<byte>, h: Header, first: nat, x: nat)
    requires Supported(h) && x < h.width
    ensures PartialColors(file, h, first, x)[x := PixelColor(file, h, first + x)]
            == PartialColors(file, h, first, x + 1)
  {
    var a := PartialColors(file, h, first, x)[x := PixelColor(file, h, first + x)];
    var b := PartialColors(file, h, first, x + 1);
    forall i | 0 <= i < h.width
      ensures a[i] == b[i]
    {
    }
  }

  /** When the data runs out at column `x`, the rest of the row stays black. */
  lemma PartialExhausted(file: seq<byte>, h: Header, first: nat, x: nat)
    requires Supported(h) && x <= h.width && PixelStart(h, first + x) >= |file|
    ensures PartialColors(file, h, first, x) == RowColors(file, h, first)
  {
    var a, b := PartialColors(file, h, first, x), RowColors(file, h, first);
    forall i | 0 <= i < h.width
      ensures a[i] == b[i]
    {
      if i >= x {
        Exhausted(file, h, first + x, first + i);
      }
    }
  }

  /** A full pixel read yields the pixel's colour and advances the cursor and the fault-free prefix. */
  lemma ReadStep(file: seq<byte>, h: Header, first: nat, x: nat, pos: nat)
    requires Supported(h)
    requires pos == Cursor(file, h, first + x)
    requires NoFaultBefore(file, h, first + x)
    requires |Read(file, pos, BytesPerPixel(h))| >= 3
    ensures var pixel := Read(file, pos, BytesPerPixel(h));
      && Color565(pixel[2], pixel[1], pixel[0]) == PixelColor(file, h, first + x)
      && pos + |pixel| == Cursor(file, h, first + (x + 1))
      && NoFaultBefore(file, h, first + (x + 1))
  {
    ReadPixel(file, h, first + x);
    ReadPixelColor(file, h, first + x);
  }

  /** Writing column `x`'s colour into the buffer converts one more pixel of the row. */
  lemma RowStep(file: seq<byte>, h: Header, first: nat, x: nat, row: seq<byte>)
    requires Supported(h) && x < h.width
    requires row == PackRow(PartialColors(file, h, first, x))
    ensures var c := PixelColor(file, h, first + x);
      row[x * 2 := HighByte(c)][x * 2 + 1 := LowByte(c)] == PackRow(PartialColors(file, h, first, x + 1))
  {
    assert x * 2 == 2 * x;
    PackRowUpdate(PartialColors(file, h, first, x), x, PixelColor(file, h, first + x));
    PartialStep(file, h, first, x);
  }

  /**
   * An empty read at column `x` ends the row: the rest of its buffer stays
   * black, the cursor stays put, and no later pixel of the row faults.
   */
  lemma ExhaustedRow(file: seq<byte>, h: Header, first: nat, x: nat)
    requires Supported(h) && x <= h.width
    requires |Read(file, Cursor(file, h, first + x), BytesPerPixel(h))| == 0
    requires NoFaultBefore(file, h, first + x)
    ensures PartialColors(file, h, first, x) == RowColors(file, h, first)
    ensures Cursor(file, h, first + x) == Cursor(file, h, first + h.width)
    ensures NoFaultBefore(file, h, first + h.width)
  {
    ReadPixel(file, h, first + x);
    PartialExhausted(file, h, first, x);
    Exhausted(file, h, first + x, first + h.width);
    forall k | first + x <= k < first + h.width
      ensures !Faults(file, h, k)
    {
      Exhausted(file, h, first + x, k);
    }
  }

  /** A one- or two-byte read at column `x` is a fault inside the row. */
  lemma FaultInRow(file: seq<byte>, h: Header, first: nat, x: nat)
    requires Supported(h) && x < h.width
    requires 0 < |Read(file, Cursor(file, h, first + x), BytesPerPixel(h))| < 3
    ensures !NoFaultBefore(file, h, first + h.width)
  {
    ReadPixel(file, h, first + x);
    assert Faults(file, h, first + x);
  }

  lemma EventsStep(file: seq<byte>, h: Header, n: nat)
    requires Supported(h)
    ensures Events(file, h, n + 1) == Events(file, h, n) + [RowEvent(file, h, n)]
  {
  }

  /** What one `f.read(bytes_per_pixel)` inside the row loop came back with. */
  datatype PixelRead =
    | NoData     // `if not pixel: break`
    | TooShort   // one or two bytes: `pixel[1]` or `pixel[2]` raises
    | Converted  // a colour was written into the row buffer

  /**
   * One pass of the inner loop of `draw_bmp_32` at column `x` of the row
   * whose first pixel is the `first`-th pixel read: read a pixel at the
   * cursor, and if it holds B, G and R, write its colour's two bytes at
   * `2x` and `2x + 1`.
   */
  method ConvertPixel(file: seq<byte>, h: Header, ghost first: nat, x: nat, row: seq<byte>, pos: nat)
    returns (status: PixelRead, row': seq<byte>, pos': nat)
    requires Supported(h) && x < h.width
    requires pos == Cursor(file, h, first + x)
    requires row == PackRow(PartialColors(file, h, first, x))
    requires NoFaultBefore(file, h, first + x)
    ensures status == NoData <==> |Read(file, pos, BytesPerPixel(h))| == 0
    ensures status == TooShort <==> 0 < |Read(file, pos, BytesPerPixel(h))| < 3
    ensures status == NoData ==>
      && PartialColors(file, h, first, x) == RowColors(file, h, first)
      && pos == Cursor(file, h, first + h.width)
      && NoFaultBefore(file, h, first + h.width)
    ensures status == TooShort ==> !NoFaultBefore(file, h, first + h.width)
    ensures status == Converted ==>
      && row' == PackRow(PartialColors(file, h, first, x + 1))
      && pos' == Cursor(file, h, first + (x + 1))
      && NoFaultBefore(file, h, first + (x + 1))
  {
    var pixel := Read(file, pos, BytesPerPixel(h));
    if |pixel| == 0 {
      ExhaustedRow(file, h, first, x);
      return NoData, row, pos;
    }
    if |pixel| < 3 {
      FaultInRow(file, h, first, x);
      return TooShort, row, pos;
    }
    var b, g, r := pixel[0], pixel[1], pixel[2];
    var color565 := Color565(r, g, b);
    ReadStep(file, h, first, x, pos);
    RowStep(file, h, first, x, row);
    row' := row[x * 2 := HighByte(color565)][x * 2 + 1 := LowByte(color565)];
    pos' := pos + |pixel|;
    status := Converted;
  }

  /**
   * The inner loop of `draw_bmp_32` for the row whose first pixel is the
   * `first`-th pixel read: starting from that pixel's cursor, convert up to
   * `width` pixels into a zero-filled buffer. It stops early, leaving the rest
   * of the buffer zero, when a read comes back empty; it reports a fault when
   * a read comes back with one or two bytes.
   */
  method ReadRow(file: seq<byte>, h: Header, ghost first: nat, start: nat)
    returns (row: seq<byte>, pos: nat, faulted: bool)
    requires Supported(h)
    requires start == Cursor(file, h, first)
    requires NoFaultBefore(file, h, first)
    ensures faulted <==> !NoFaultBefore(file, h, first + h.width)
    ensures !faulted ==>
      && row == PackRow(RowColors(file, h, first))
      && pos == Cursor(file, h, first + h.width)
  {
    var width := h.width;
    pos := start;
    row := seq(width * 2, _ => 0);
    EmptyRow(file, h, first);
    var x := 0;
    while x < width
      invariant 0 <= x <= width
      invariant pos == Cursor(file, h, first + x)
      invariant row == PackRow(PartialColors(file, h, first, x))
      invariant NoFaultBefore(file, h, first + x)
    {
      var status, row', pos' := ConvertPixel(file, h, first, x, row, pos);
      if status == NoData {
        return row, pos, false;
      }
      if status == TooShort {
        return row, pos, true;
      }
      row, pos := row', pos';
      x := x + 1;
    }
    assert x == h.width;
    PartialAll(file, h, first);
    faulted := false;
  }

  /**
   * `draw_bmp_32`, loop for loop: the file is read through a cursor, every
   * finished row is drawn, and the function ends early on a rejected header
   * or on a pixel read too short to index.
   */
  method DrawBmp32(file: seq<byte>) returns (out: Outcome)
    ensures out == Reference(file)
  {
    var parsed := ParseHeader(file);
    if parsed.Rejected? {
      return Outcome([], Stopped(parsed.reason));
    }
    var h := parsed.header;
    var width, height := h.width, h.height;
    var pos := h.offset;
    var events: seq<DrawEvent> := [];
    ghost var first: nat := 0;
    var y: int := height - 1;
    while y >= 0
      invariant -1 <= y < height
      invariant first == RowStart(h, height - 1 - y)
      invariant pos == Cursor(file, h, first)
      invariant events == Events(file, h, height - 1 - y)
      invariant NoFaultBefore(file, h, first)
    {
      var row, faulted;
      row, pos, faulted := ReadRow(file, h, first, pos);
      if faulted {
        ghost var f :| first <= f < first + width && Faults(file, h, f);
        RowsBeforeFault(file, h, height - 1 - y, f);
        return Outcome(events, PixelTruncated);
      }
      EventsStep(file, h, height - 1 - y);
      events := events + [Image(0, y, width as int - 1, y, row)];
      RowStartNext(h, height - 1 - y);
      first := first + width;
      y := y - 1;
    }
    assert first == PixelCount(h);
    AllRowsDrawn(file, h);
    return Outcome(events, Completed);
  }
}
