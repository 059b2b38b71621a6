/**
 * Bytes, little-endian field decoding and the sequential file cursor of
 * `draw_bmp_32` (esp32tft/image.py). The file is an in-memory byte sequence;
 * `Read` models `f.read(n)` after `f.seek(pos)`.
 */
module Bytes {

  /** One byte of a file: an integer in 0..255. */
  type byte = b: int | 0 <= b < 256

  /** `struct.unpack("<H", s)`: two bytes, least significant first. */
  function Le16(s: seq<byte>): (v: nat)
    requires |s| == 2
    ensures v < 0x1_0000
  {
    s[0] as int + s[1] as int * 0x100
  }

  /** `struct.unpack("<I", s)`: four bytes, least significant first. */
  function Le32(s: seq<byte>): (v: nat)
    requires |s| == 4
    ensures v < 0x1_0000_0000
    ensures v % 0x1_0000 == Le16(s[..2]) && v / 0x1_0000 == Le16(s[2..])
  {
    Le16(s[..2]) + Le16(s[2..]) * 0x1_0000
  }

  /** The inverse of `Le16`: the two little-endian bytes of `v`. */
  function EncodeLe16(v: nat): (s: seq<byte>)
    requires v < 0x1_0000
    ensures |s| == 2
  {
    [v % 0x100, v / 0x100]
  }

  /** The inverse of `Le32`: the four little-endian bytes of `v`. */
  function EncodeLe32(v: nat): (s: seq<byte>)
    requires v < 0x1_0000_0000
    ensures |s| == 4
  {
    EncodeLe16(v % 0x1_0000) + EncodeLe16(v / 0x1_0000)
  }

  lemma Le16RoundTrip(v: nat)
    requires v < 0x1_0000
    ensures Le16(EncodeLe16(v)) == v
  {
  }

  lemma Le16Injective(s: seq<byte>)
    requires |s| == 2
    ensures EncodeLe16(Le16(s)) == s
  {
  }

  lemma Le32RoundTrip(v: nat)
    requires v < 0x1_0000_0000
    ensures Le32(EncodeLe32(v)) == v
  {
    var s := EncodeLe32(v);
    assert s[..2] == EncodeLe16(v % 0x1_0000);
    assert s[2..] == EncodeLe16(v / 0x1_0000);
    Le16RoundTrip(v % 0x1_0000);
    Le16RoundTrip(v / 0x1_0000);
  }

  lemma Le32Injective(s: seq<byte>)
    requires |s| == 4
    ensures EncodeLe32(Le32(s)) == s
  {
    Le16Injective(s[..2]);
    Le16Injective(s[2..]);
    assert s == s[..2] + s[2..];
  }

  /**
   * `f.seek(pos); f.read(n)`: at most `n` bytes starting at `pos`; fewer
   * when the file ends first, none at or past the end of the file.
   */
  function Read(file: seq<byte>, pos: nat, n: nat): (r: seq<byte>)
    ensures |r| <= n
    ensures pos + n <= |file| ==> |r| == n
    ensures pos + |r| <= |file| || r == []
    ensures |r| == 0 <==> pos >= |file| || n == 0
    ensures pos + n > |file| && pos < |file| ==> |r| == |file| - pos
    ensures forall i :: 0 <= i < |r| ==> r[i] == file[pos + i]
  {
    if pos >= |file| then []
    else if pos + n <= |file| then file[pos..pos + n]
    else file[pos..]
  }
}
