/**
 * RGB888 -> RGB565 conversion and the big-endian packing of converted
 * pixels into a display row buffer (esp32tft/image.py, `draw_bmp_32`).
 *
 * The source writes the conversion with masks, shifts and `|` on Python
 * integers. Every operand here is a non-negative value below 2^16, so they are
 * written arithmetically: `x >> n` is `x / 2^n`, `x << n` is `x * 2^n`,
 * masking a byte with 0xF8 (0xFC) clears its low 3 (2) bits, `x & 0xFF` is
 * `x % 256`, and `|` of fields occupying disjoint bit ranges is their sum.
 */
module Rgb565 {
  import opened Bytes

  /** A 16-bit display colour: red in bits 15..11, green 10..5, blue 4..0. */
  type color565 = c: int | 0 <= c < 0x1_0000

  /** Bits 15..11 of a colour. */
  function Red5(c: color565): nat { c / 2048 }

  /** Bits 10..5 of a colour. */
  function Green6(c: color565): nat { c / 32 % 64 }

  /** Bits 4..0 of a colour. */
  function Blue5(c: color565): nat { c % 32 }

  /** A colour is determined by its three fields, each within its width. */
  lemma FieldsOf(red: nat, green: nat, blue: nat)
    requires red < 32 && green < 64 && blue < 32
    ensures red * 2048 + green * 32 + blue < 0x1_0000
    ensures Red5(red * 2048 + green * 32 + blue) == red
    ensures Green6(red * 2048 + green * 32 + blue) == green
    ensures Blue5(red * 2048 + green * 32 + blue) == blue
  {
    var c := red * 2048 + green * 32 + blue;
    assert c == (red * 64 + green) * 32 + blue;
    assert c / 32 == red * 64 + green;
    assert c == red * 2048 + (green * 32 + blue);
  }

  /** `((r & 0xF8) << 8) | ((g & 0xFC) << 3) | (b >> 3)`. */
  function Color565(r: byte, g: byte, b: byte): (c: color565)
    ensures Red5(c) == r / 8
    ensures Green6(c) == g / 4
    ensures Blue5(c) == b / 8
  {
    FieldsOf(r / 8, g / 4, b / 8);
    (r - r % 8) * 256 + (g - g % 4) * 8 + b / 8
  }

  /** The largest 8-bit intensities a colour stands for: its fields shifted back. */
  function ToRgb888(c: color565): (rgb: (byte, byte, byte))
  {
    (Red5(c) * 8, Green6(c) * 4, Blue5(c) * 8)
  }

  /** Expanding a colour and converting it back gives the same colour. */
  lemma ColorRoundTrip(c: color565)
    ensures Color565(ToRgb888(c).0, ToRgb888(c).1, ToRgb888(c).2) == c
  {
    var q, blue := c / 32, c % 32;
    var red, green := q / 64, q % 64;
    assert c == red * 2048 + green * 32 + blue;
    FieldsOf(red, green, blue);
    assert (red * 8) % 8 == 0 && (green * 4) % 4 == 0 && (blue * 8) / 8 == blue;
    assert ToRgb888(c) == (red * 8, green * 4, blue * 8);
  }

  /** Conversion keeps the top 5/6/5 bits of each channel and drops the rest. */
  lemma ConversionQuantises(r: byte, g: byte, b: byte)
    ensures ToRgb888(Color565(r, g, b)) == (r - r % 8, g - g % 4, b - b % 8)
  {
  }

  /** Converting an already-quantised colour again gives the same colour. */
  lemma ConversionIdempotent(r: byte, g: byte, b: byte)
    ensures var q := ToRgb888(Color565(r, g, b));
            Color565(q.0, q.1, q.2) == Color565(r, g, b)
  {
    ColorRoundTrip(Color565(r, g, b));
  }

  /** `(c >> 8) & 0xFF`: the byte written first into the row buffer. */
  function HighByte(c: color565): byte { (c / 0x100) % 0x100 }

  /** `c & 0xFF`: the byte written second into the row buffer. */
  function LowByte(c: color565): byte { c % 0x100 }

  /** Reads a big-endian colour back from its two bytes. */
  function Join(hi: byte, lo: byte): color565 { hi * 0x100 + lo }

  lemma SplitJoin(c: color565)
    ensures Join(HighByte(c), LowByte(c)) == c
  {
  }

  /**
   * The row buffer for a line of colours: colour `x` occupies bytes `2x`
   * (high) and `2x+1` (low); `PackedColumn` states it pair by pair.
   */
  function PackRow(colors: seq<color565>): (row: seq<byte>)
    ensures |row| == 2 * |colors|
  {
    seq(2 * |colors|, i requires 0 <= i < 2 * |colors| =>
      if i % 2 == 0 then HighByte(colors[i / 2]) else LowByte(colors[i / 2]))
  }

  /**
   * Bytes `2x` and `2x+1` of a packed row are the high and low bytes of
   * colour `x`, and together they give that colour back.
   */
  lemma PackedColumn(colors: seq<color565>, x: nat)
    requires x < |colors|
    ensures var row := PackRow(colors);
      && row[2 * x] == HighByte(colors[x])
      && row[2 * x + 1] == LowByte(colors[x])
      && Join(row[2 * x], row[2 * x + 1]) == colors[x]
  {
    var row := PackRow(colors);
    assert row[2 * x] == HighByte(colors[x]) by {
      assert (2 * x) / 2 == x && (2 * x) % 2 == 0;
    }
    assert row[2 * x + 1] == LowByte(colors[x]) by {
      assert (2 * x + 1) / 2 == x && (2 * x + 1) % 2 == 1;
    }
    SplitJoin(colors[x]);
  }

  /** The colours a row buffer holds, read back pair by pair. */
  function UnpackRow(row: seq<byte>): (colors: seq<color565>)
    requires |row| % 2 == 0
    ensures |colors| == |row| / 2
  {
    seq(|row| / 2, x requires 0 <= x < |row| / 2 => Join(row[2 * x], row[2 * x + 1]))
  }

  /** Reading a packed row back pair by pair gives the line of colours. */
  lemma RowRoundTrip(colors: seq<color565>)
    ensures UnpackRow(PackRow(colors)) == colors
  {
    var row := PackRow(colors);
    assert |row| / 2 == |colors|;
    var back := UnpackRow(row);
    forall x | 0 <= x < |colors|
      ensures back[x] == colors[x]
    {
      PackedColumn(colors, x);
    }
  }

  /** Packing all-black pixels gives a zero-filled buffer, `bytearray(2 * n)`. */
  lemma PackBlack(n: nat)
    ensures PackRow(seq(n, _ => 0)) == seq(2 * n, _ => 0)
  {
    var row := PackRow(seq(n, _ => 0));
    forall i | 0 <= i < 2 * n
      ensures row[i] == 0
    {
      assert seq(n, _ => 0)[i / 2] == 0;
    }
  }

  /** Writing a colour's two bytes at `2x`, `2x+1` packs the updated line. */
  lemma PackRowUpdate(colors: seq<color565>, x: nat, c: color565)
    requires x < |colors|
    ensures PackRow(colors)[2 * x := HighByte(c)][2 * x + 1 := LowByte(c)]
            == PackRow(colors[x := c])
  {
    var a := PackRow(colors)[2 * x := HighByte(c)][2 * x + 1 := LowByte(c)];
    var b := PackRow(colors[x := c]);
    forall i | 0 <= i < |a|
      ensures a[i] == b[i]
    {
      if i / 2 == x {
        assert i == 2 * x || i == 2 * x + 1;
      } else {
        assert i != 2 * x && i != 2 * x + 1;
        assert colors[x := c][i / 2] == colors[i / 2];
      }
    }
  }
}
