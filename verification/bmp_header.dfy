/**
 * The header checks of `draw_bmp_32` (esp32tft/image.py): the `BM`
 * signature, the four little-endian fields it reads at fixed offsets of the
 * Windows BMP file and info headers, and the bit-depth check.
 */
module BmpHeader {
  import opened Bytes

  /** `bfOffBits` (byte 10), `biWidth` (18), `biHeight` (22), `biBitCount` (28). */
  datatype Header = Header(offset: nat, width: nat, height: nat, bitDepth: nat)

  /** Why the decoder stops before drawing anything. */
  datatype Rejection =
    | NotBmp                        // the first two bytes are not 'B', 'M'
    | HeaderTruncated               // a header field read came back short and struct.unpack raised
    | UnsupportedDepth(depth: nat)  // biBitCount is neither 24 nor 32

  datatype Parsed = Accepted(header: Header) | Rejected(reason: Rejection)

  /** The file is long enough for the last field read, `biBitCount` at 28..29. */
  const HeaderEnd: nat := 30

  /** `f.read(2) == b'BM'`. */
  predicate HasSignature(file: seq<byte>)
  {
    Read(file, 0, 2) == ['B' as byte, 'M' as byte]
  }

  /** Only 24-bit and 32-bit pixels are drawn. */
  predicate Supported(h: Header)
  {
    h.bitDepth == 24 || h.bitDepth == 32
  }

  /** `bit_depth // 8`: bytes read per pixel. */
  function BytesPerPixel(h: Header): (n: nat)
    requires Supported(h)
    ensures n == 3 || n == 4
    ensures h.bitDepth == 24 <==> n == 3
  {
    h.bitDepth / 8
  }

  /** Each field fits the width it is stored in. */
  predicate Representable(h: Header)
  {
    h.offset < 0x1_0000_0000 && h.width < 0x1_0000_0000 &&
    h.height < 0x1_0000_0000 && h.bitDepth < 0x1_0000
  }

  /** The value of the four bytes at `at`, least significant first. */
  function FieldAt(file: seq<byte>, at: nat): int
    requires at + 4 <= |file|
  {
    file[at] as int + file[at + 1] as int * 0x100 +
    file[at + 2] as int * 0x1_0000 + file[at + 3] as int * 0x100_0000
  }

  /** The signature check, the field reads and the depth check, in source order. */
  function ParseHeader(file: seq<byte>): (r: Parsed)
    ensures r == Rejected(NotBmp) <==> !(|file| >= 2 && file[0] == 'B' as byte && file[1] == 'M' as byte)
    ensures r == Rejected(HeaderTruncated) <==> HasSignature(file) && |file| < HeaderEnd
    ensures r.Rejected? && r.reason.UnsupportedDepth? ==>
      |file| >= HeaderEnd && r.reason.depth == file[28] as int + file[29] as int * 0x100 &&
      r.reason.depth != 24 && r.reason.depth != 32
    ensures r.Accepted? ==>
      && |file| >= HeaderEnd
      && r.header.offset == FieldAt(file, 10)
      && r.header.width == FieldAt(file, 18)
      && r.header.height == FieldAt(file, 22)
      && r.header.bitDepth == file[28] as int + file[29] as int * 0x100
      && Supported(r.header) && Representable(r.header)
  {
    if !HasSignature(file) then Rejected(NotBmp)
    else if |file| < HeaderEnd then Rejected(HeaderTruncated)
    else
      var h := Header(Le32(file[10..14]), Le32(file[18..22]), Le32(file[22..26]), Le16(file[28..30]));
      if !Supported(h) then Rejected(UnsupportedDepth(h.bitDepth)) else Accepted(h)
  }

  /** A minimal header holding `h`: the signature, the four fields, zeros elsewhere. */
  function EncodeHeader(h: Header): (file: seq<byte>)
    requires Representable(h)
    ensures |file| == HeaderEnd
  {
    ['B' as byte, 'M' as byte] + seq(8, _ => 0) + EncodeLe32(h.offset) + seq(4, _ => 0) +
    EncodeLe32(h.width) + EncodeLe32(h.height) + seq(2, _ => 0) + EncodeLe16(h.bitDepth)
  }

  /** Parsing an encoded supported header gives it back. */
  lemma HeaderRoundTrip(h: Header)
    requires Representable(h) && Supported(h)
    ensures ParseHeader(EncodeHeader(h)) == Accepted(h)
  {
    var file := EncodeHeader(h);
    assert file[10..14] == EncodeLe32(h.offset);
    assert file[18..22] == EncodeLe32(h.width);
    assert file[22..26] == EncodeLe32(h.height);
    assert file[28..30] == EncodeLe16(h.bitDepth);
    Le32RoundTrip(h.offset);
    Le32RoundTrip(h.width);
    Le32RoundTrip(h.height);
    Le16RoundTrip(h.bitDepth);
  }

  /** An encoded header with any other depth is rejected, naming that depth. */
  lemma UnsupportedDepthRejected(h: Header)
    requires Representable(h) && !Supported(h)
    ensures ParseHeader(EncodeHeader(h)) == Rejected(UnsupportedDepth(h.bitDepth))
  {
    var file := EncodeHeader(h);
    assert file[28..30] == EncodeLe16(h.bitDepth);
    Le16RoundTrip(h.bitDepth);
  }
}
