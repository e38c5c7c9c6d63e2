/** The bitmap generator: a 24-bit, uncompressed, top-down Windows BMP image made of a
    14-byte BITMAPFILEHEADER, a 40-byte BITMAPINFOHEADER and rows of blue-green-red
    pixels, each row padded to a multiple of four bytes. */
module Bmp {
  import opened CTypes

  const FileHeaderWords := 7                    // std::uint16_t bitmap_file_header[7]
  const InfoHeaderWords := 10                   // std::uint32_t bitmap_info_header[10]
  const FileHeaderSize := 2 * FileHeaderWords   // 14
  const InfoHeaderSize := 4 * InfoHeaderWords   // 40
  const HeadersSize := FileHeaderSize + InfoHeaderSize

  /** The colour of one pixel. */
  datatype Rgb = Rgb(r: byte, g: byte, b: byte)

  /** The colour the generator gives to the pixel in row `i`, column `j`; it depends on
      the local hour of the day through floating-point blending not modelled here. */
  type Painter = (nat, nat) -> Rgb

  // ---------------------------------------------------------------------------------
  // Layout arithmetic

  /** `(width * 3 + 3) & ~3u`: three bytes per pixel rounded up to a multiple of four. */
  function Pitch(width: nat): (p: nat)
    ensures p % 4 == 0
    ensures 3 * width <= p < 3 * width + 4
  {
    (width * 3 + 3) - (width * 3 + 3) % 4
  }

  /** Clearing the two low bits of a 32-bit value subtracts its remainder modulo 4,
      which is how Pitch writes the mask `& ~3u`. */
  lemma ClearLowBits(x: bv32)
    ensures x & !3 == x - x % 4
  {
  }

  /** The pitch agrees with the stride of the BMP format, ((bits * width + 31) / 32) * 4
      bytes for 24 bits per pixel. */
  lemma PitchIsBmpStride(width: nat)
    ensures Pitch(width) == ((24 * width + 31) / 32) * 4
  {
    var q := (width * 3 + 3) / 4;
    assert Pitch(width) == 4 * q;
    assert 32 * q <= 24 * width + 24 < 32 * q + 32;
    assert 32 * q <= 24 * width + 31 < 32 * q + 32;
  }

  /** What the generator needs of its `int` arguments: no negative size, and no signed
      32-bit overflow in `width * 3 + 3` nor in `pitch * height`. */
  predicate ValidSize(width: int, height: int) {
    0 <= width && 0 <= height <= INT_MAX && width * 3 + 3 <= INT_MAX && Pitch(width) * height <= INT_MAX
  }

  /** The size of the generated buffer: both headers, then `pitch` bytes per row. */
  function ImageSize(width: nat, height: nat): (n: nat)
    ensures (n - HeadersSize) % 4 == 0
  {
    var p := Pitch(width);
    assert p * height == 4 * ((p / 4) * height);
    HeadersSize + p * height
  }

  /** A C `int` converted to `std::uint32_t`: reduction modulo 2^32. */
  function ToUint32(v: int): uint32 {
    (v % 0x1_0000_0000) as uint32
  }

  // ---------------------------------------------------------------------------------
  // The two headers, as the words the generator fills in

  /** The low and the high 16-bit word of a 32-bit value, as `write_uint32` stores them. */
  function LowWord(v: uint32): uint16 { (v % 0x1_0000) as uint16 }
  function HighWord(v: uint32): uint16 { ((v / 0x1_0000) % 0x1_0000) as uint16 }

  /** The two words put back together give the value. */
  lemma WordsJoin(v: uint32)
    ensures LowWord(v) as int + 0x1_0000 * HighWord(v) as int == v as int
  {
    var q := v as int / 0x1_0000;
    assert q < 0x1_0000;
    assert q % 0x1_0000 == q;
  }

  /** `v & 0xFFFF` and `(v >> 16) & 0xFFFF`, written as LowWord and HighWord. */
  lemma MasksAreDivMod(v: bv32)
    ensures v & 0xFFFF == v % 0x1_0000
    ensures (v >> 16) & 0xFFFF == v / 0x1_0000
  {
  }

  /** BITMAPFILEHEADER as seven 16-bit words: bfType 'BM', bfSize, two reserved words,
      bfOffBits. */
  function FileHeader(size: uint32): (w: seq<uint16>)
    ensures |w| == FileHeaderWords
    ensures w[0] % 0x100 == 'B' as uint16 && w[0] / 0x100 == 'M' as uint16
    ensures w[1] as int + 0x1_0000 * w[2] as int == size as int
    ensures w[3] == 0 && w[4] == 0
    ensures w[5] as int + 0x1_0000 * w[6] as int == HeadersSize
  {
    WordsJoin(size);
    WordsJoin(HeadersSize as uint32);
    [19778, LowWord(size), HighWord(size), 0, 0, LowWord(HeadersSize as uint32), HighWord(HeadersSize as uint32)]
  }

  /** BITMAPINFOHEADER as ten 32-bit words: biSize, biWidth, biHeight (negative for a
      top-down image), biPlanes and biBitCount packed in one word, biCompression (BI_RGB),
      and five zero fields. */
  function InfoHeader(width: int, height: int): (w: seq<uint32>)
    ensures |w| == InfoHeaderWords && w[0] as int == InfoHeaderSize
    ensures w[1] as int == width % 0x1_0000_0000 && w[2] as int == -height % 0x1_0000_0000
    ensures w[3] % 0x1_0000 == 1 && w[3] / 0x1_0000 == 24
    ensures forall k :: 4 <= k < InfoHeaderWords ==> w[k] == 0
  {
    [InfoHeaderSize as uint32, ToUint32(width), ToUint32(-height), 1 + 24 * 0x1_0000, 0, 0, 0, 0, 0, 0]
  }

  // ---------------------------------------------------------------------------------
  // Little-endian byte images of word arrays (what memcpy produces on a little-endian host)

  function Le16(ws: seq<uint16>): (r: seq<byte>)
    ensures |r| == 2 * |ws|
  {
    if ws == [] then [] else Le16(ws[..|ws| - 1]) + [(ws[|ws| - 1] % 0x100) as byte, (ws[|ws| - 1] / 0x100) as byte]
  }

  function Le32(ws: seq<uint32>): (r: seq<byte>)
    ensures |r| == 4 * |ws|
  {
    if ws == [] then []
    else
      var lo, hi := ws[|ws| - 1] as int % 0x1_0000, ws[|ws| - 1] as int / 0x1_0000;
      Le32(ws[..|ws| - 1]) + [(lo % 0x100) as byte, (lo / 0x100) as byte,
                               (hi % 0x100) as byte, (hi / 0x100) as byte]
  }

  /** Byte `b` of a 16-bit and of a 32-bit word in little-endian order. */
  function Le16Byte(w: uint16, b: nat): byte
    requires b < 2
  {
    if b == 0 then (w % 0x100) as byte else (w / 0x100) as byte
  }

  function Le32Byte(w: uint32, b: nat): byte
    requires b < 4
  {
    var lo, hi := w as int % 0x1_0000, w as int / 0x1_0000;
    if b == 0 then (lo % 0x100) as byte
    else if b == 1 then (lo / 0x100) as byte
    else if b == 2 then (hi % 0x100) as byte
    else (hi / 0x100) as byte
  }

  lemma {:induction false} Le16At(ws: seq<uint16>, t: nat, b: nat)
    requires t < |ws| && b < 2
    ensures Le16(ws)[2 * t + b] == Le16Byte(ws[t], b)
    decreases |ws|
  {
    var n := |ws| - 1;
    if t < n {
      Le16At(ws[..n], t, b);
      assert ws[..n][t] == ws[t];
    }
  }

  lemma {:induction false} Le32At(ws: seq<uint32>, t: nat, b: nat)
    requires t < |ws| && b < 4
    ensures Le32(ws)[4 * t + b] == Le32Byte(ws[t], b)
    decreases |ws|
  {
    var n := |ws| - 1;
    if t < n {
      Le32At(ws[..n], t, b);
      assert ws[..n][t] == ws[t];
    }
  }

  /** The 54 header bytes at the start of the image. */
  function HeaderBytes(width: nat, height: nat): (r: seq<byte>)
    ensures |r| == HeadersSize
  {
    Le16(FileHeader(ToUint32(ImageSize(width, height)))) + Le32(InfoHeader(width, height))
  }

  // ---------------------------------------------------------------------------------
  // Pixel rows

  /** The first `columns` pixels of row `i`, three bytes each in blue, green, red order. */
  function RowPixels(paint: Painter, i: nat, columns: nat): (r: seq<byte>)
    ensures |r| == 3 * columns
  {
    if columns == 0 then []
    else
      var c := paint(i, columns - 1);
      RowPixels(paint, i, columns - 1) + [c.b, c.g, c.r]
  }

  function Zeros(n: nat): (r: seq<byte>)
    ensures |r| == n && forall k :: 0 <= k < n ==> r[k] == 0
  {
    seq(n, _ => 0)
  }

  /** Row `i` of the pixel array: its pixels followed by zero padding up to the pitch. */
  function Row(paint: Painter, width: nat, i: nat): (r: seq<byte>)
    ensures |r| == Pitch(width)
    ensures r[..3 * width] == RowPixels(paint, i, width)
    ensures forall k :: 3 * width <= k < |r| ==> r[k] == 0
  {
    RowPixels(paint, i, width) + Zeros(Pitch(width) - 3 * width)
  }

  /** The first `rows` rows, top row first. */
  function Rows(paint: Painter, width: nat, rows: nat): (r: seq<byte>)
    ensures |r| == rows * Pitch(width)
  {
    if rows == 0 then []
    else
      assert (rows - 1) * Pitch(width) + Pitch(width) == rows * Pitch(width);
      Rows(paint, width, rows - 1) + Row(paint, width, rows - 1)
  }

  /** The whole image the generator produces. */
  function Image(paint: Painter, width: nat, height: nat): (img: seq<byte>)
    ensures |img| == ImageSize(width, height)
    ensures img[..HeadersSize] == HeaderBytes(width, height)
  {
    HeaderBytes(width, height) + Rows(paint, width, height)
  }

  // ---------------------------------------------------------------------------------
  // Where each byte of the image sits

  lemma {:induction false} MulStrictMono(a: nat, b: nat, c: nat)
    requires a < b
    ensures 0 <= a * c && a * c + c <= b * c
    decreases b
  {
    if a + 1 < b {
      MulStrictMono(a, b - 1, c);
      assert b * c == (b - 1) * c + c;
    } else {
      assert b * c == a * c + c;
      if a > 0 {
        MulStrictMono(a - 1, a, c);
      }
    }
  }

  /** One more row fits before row `rows`. */
  lemma {:induction false} RowsGrow(paint: Painter, width: nat, i: nat, rows: nat)
    requires i < rows
    ensures |Rows(paint, width, i)| + Pitch(width) <= |Rows(paint, width, rows)|
    decreases rows
  {
    if i < rows - 1 {
      RowsGrow(paint, width, i, rows - 1);
    }
  }

  /** Byte `k` of row `i` sits at offset `i * pitch + k` of the pixel array. */
  lemma {:induction false} RowsAt(paint: Painter, width: nat, rows: nat, i: nat, k: nat)
    requires i < rows && k < Pitch(width)
    ensures i * Pitch(width) + k < |Rows(paint, width, rows)|
    ensures Rows(paint, width, rows)[i * Pitch(width) + k] == Row(paint, width, i)[k]
    decreases rows
  {
    var p := Pitch(width);
    MulStrictMono(i, rows, p);
    if i < rows - 1 {
      RowsAt(paint, width, rows - 1, i, k);
    } else {
      assert i * p == (rows - 1) * p;
    }
  }

  /** The color byte `k` (0 blue, 1 green, 2 red) of a pixel. */
  function Channel(c: Rgb, k: nat): byte
    requires k < 3
  {
    if k == 0 then c.b else if k == 1 then c.g else c.r
  }

  lemma {:induction false} RowPixelsAt(paint: Painter, i: nat, columns: nat, j: nat, k: nat)
    requires j < columns && k < 3
    ensures RowPixels(paint, i, columns)[3 * j + k] == Channel(paint(i, j), k)
    decreases columns
  {
    if j < columns - 1 {
      RowPixelsAt(paint, i, columns - 1, j, k);
    }
  }

  /** Every pixel-byte index `54 + i * pitch + 3 * j + k` the generator writes lies inside the
      buffer. */
  lemma PixelIndexInBounds(width: nat, height: nat, i: nat, j: nat, k: nat)
    requires i < height && j < width && k < 3
    ensures HeadersSize + i * Pitch(width) + 3 * j + k < ImageSize(width, height)
  {
    MulStrictMono(i, height, Pitch(width));
  }

  /** Byte `x` of the pixel array is byte `54 + x` of the image. */
  lemma ImageAt(paint: Painter, width: nat, height: nat, x: nat)
    requires x < |Rows(paint, width, height)|
    ensures HeadersSize + x < |Image(paint, width, height)|
    ensures Image(paint, width, height)[HeadersSize + x] == Rows(paint, width, height)[x]
  {
  }

  /** Pixel (i, j) is stored blue, green, red at `54 + i * pitch + 3 * j`. */
  lemma PixelAt(paint: Painter, width: nat, height: nat, i: nat, j: nat, k: nat)
    requires i < height && j < width && k < 3
    ensures 0 <= i * Pitch(width) && HeadersSize + i * Pitch(width) + 3 * j + k < |Image(paint, width, height)|
    ensures Image(paint, width, height)[HeadersSize + i * Pitch(width) + 3 * j + k] == Channel(paint(i, j), k)
  {
    var p := Pitch(width);
    var x := i * p + (3 * j + k);
    RowsAt(paint, width, height, i, 3 * j + k);
    RowPixelsAt(paint, i, width, j, k);
    assert Row(paint, width, i)[3 * j + k] == RowPixels(paint, i, width)[3 * j + k];
    MulStrictMono(i, height, p);
    ImageAt(paint, width, height, x);
  }

  /** The padding bytes `3 * width .. pitch - 1` of every row are zero. */
  lemma PaddingIsZero(paint: Painter, width: nat, height: nat, i: nat, k: nat)
    requires i < height && 3 * width <= k < Pitch(width)
    ensures 0 <= i * Pitch(width) && HeadersSize + i * Pitch(width) + k < |Image(paint, width, height)|
    ensures Image(paint, width, height)[HeadersSize + i * Pitch(width) + k] == 0
  {
    RowsAt(paint, width, height, i, k);
    MulStrictMono(i, height, Pitch(width));
    ImageAt(paint, width, height, i * Pitch(width) + k);
  }

  // ---------------------------------------------------------------------------------
  // Reading the image back as a BMP decoder does

  /** Little-endian 16-bit and 32-bit fields, and a 32-bit two's complement field. */
  function U16At(s: seq<byte>, off: nat): nat
    requires off + 2 <= |s|
  {
    s[off] as nat + 0x100 * s[off + 1] as nat
  }

  function U32At(s: seq<byte>, off: nat): nat
    requires off + 4 <= |s|
  {
    U16At(s, off) + 0x1_0000 * U16At(s, off + 2)
  }

  function I32At(s: seq<byte>, off: nat): int
    requires off + 4 <= |s|
  {
    var u := U32At(s, off);
    if u < 0x8000_0000 then u else u - 0x1_0000_0000
  }

  /** biWidth, |biHeight| and the row order a decoder reads from the headers. */
  function BmpWidth(s: seq<byte>): int
    requires HeadersSize <= |s|
  {
    I32At(s, 18)
  }

  function BmpHeight(s: seq<byte>): nat
    requires HeadersSize <= |s|
  {
    var h := I32At(s, 22);
    if h < 0 then -h else h
  }

  predicate TopDown(s: seq<byte>)
    requires HeadersSize <= |s|
  {
    I32At(s, 22) < 0
  }

  /** The row stride a decoder computes from biBitCount and biWidth. */
  function BmpStride(s: seq<byte>): int
    requires HeadersSize <= |s|
  {
    ((U16At(s, 28) * BmpWidth(s) + 31) / 32) * 4
  }

  /** Where a decoder finds pixel (i, j) of a top-down 24-bit image: bfOffBits, then
      `i` strides, then three bytes per pixel. */
  function PixelOffset(s: seq<byte>, i: nat, j: nat): int
    requires HeadersSize <= |s|
  {
    U32At(s, 10) + i * BmpStride(s) + 3 * j
  }

  function DecodedPixel(s: seq<byte>, i: nat, j: nat): Rgb
    requires HeadersSize <= |s|
    requires 0 <= PixelOffset(s, i, j) && PixelOffset(s, i, j) + 3 <= |s|
  {
    var off := PixelOffset(s, i, j);
    Rgb(s[off + 2], s[off + 1], s[off])
  }

  lemma Le16Word(ws: seq<uint16>, t: nat)
    requires t < |ws|
    ensures U16At(Le16(ws), 2 * t) == ws[t] as nat
  {
    Le16At(ws, t, 0);
    Le16At(ws, t, 1);
  }

  lemma {:induction false} Le32Word(ws: seq<uint32>, t: nat)
    requires t < |ws|
    ensures U32At(Le32(ws), 4 * t) == ws[t] as nat
    decreases |ws|
  {
    var n := |ws| - 1;
    var w := ws[n];
    var le, init := Le32(ws), Le32(ws[..n]);
    var lo, hi := w as int % 0x1_0000, w as int / 0x1_0000;
    var last := [(lo % 0x100) as byte, (lo / 0x100) as byte, (hi % 0x100) as byte, (hi / 0x100) as byte];
    assert le == init + last;
    if t < n {
      Le32Word(ws[..n], t);
      assert ws[..n][t] == ws[t];
      U32InHeader(le, init, 4 * t);
    } else {
      assert le[4 * t..] == last;
      U32OfBytes(le, 4 * t, w);
    }
  }

  /** Four bytes in little-endian order read back as the word they came from. */
  lemma U32OfBytes(s: seq<byte>, off: nat, w: uint32)
    requires off + 4 <= |s|
    requires s[off] == Le32Byte(w, 0) && s[off + 1] == Le32Byte(w, 1)
    requires s[off + 2] == Le32Byte(w, 2) && s[off + 3] == Le32Byte(w, 3)
    ensures U32At(s, off) == w as nat
  {
    Le32BytesJoin(w);
  }

  /** The four little-endian bytes of a 32-bit word put back together give the word. */
  lemma Le32BytesJoin(w: uint32)
    ensures Le32Byte(w, 0) as int + 0x100 * Le32Byte(w, 1) as int
      + 0x1_0000 * (Le32Byte(w, 2) as int + 0x100 * Le32Byte(w, 3) as int) == w as int
  {
    var lo, hi := w as int % 0x1_0000, w as int / 0x1_0000;
    assert lo % 0x100 + 0x100 * (lo / 0x100) == lo;
    assert hi % 0x100 + 0x100 * (hi / 0x100) == hi;
  }

  /** A header field reads the same from the image as from the header bytes alone. */
  lemma U16InHeader(s: seq<byte>, hb: seq<byte>, off: nat)
    requires |hb| <= |s| && s[..|hb|] == hb && off + 2 <= |hb|
    ensures U16At(s, off) == U16At(hb, off)
  {
    assert s[off] == hb[off] && s[off + 1] == hb[off + 1];
  }

  lemma U32InHeader(s: seq<byte>, hb: seq<byte>, off: nat)
    requires |hb| <= |s| && s[..|hb|] == hb && off + 4 <= |hb|
    ensures U32At(s, off) == U32At(hb, off)
  {
    U16InHeader(s, hb, off);
    U16InHeader(s, hb, off + 2);
  }

  /** Word `t` of BITMAPFILEHEADER is read back at offset `2 * t` of the header bytes. */
  lemma FileHeaderWordAt(width: nat, height: nat, t: nat)
    requires t < FileHeaderWords
    ensures U16At(HeaderBytes(width, height), 2 * t) == FileHeader(ToUint32(ImageSize(width, height)))[t] as nat
  {
    var fh := FileHeader(ToUint32(ImageSize(width, height)));
    var hb := HeaderBytes(width, height);
    Le16Word(fh, t);
    assert hb[2 * t] == Le16(fh)[2 * t] && hb[2 * t + 1] == Le16(fh)[2 * t + 1];
  }

  /** Word `t` of BITMAPINFOHEADER is read back at offset `14 + 4 * t` of the header bytes. */
  lemma InfoHeaderWordAt(width: nat, height: nat, t: nat)
    requires t < InfoHeaderWords
    ensures U32At(HeaderBytes(width, height), FileHeaderSize + 4 * t) == InfoHeader(width, height)[t] as nat
  {
    var fh := Le16(FileHeader(ToUint32(ImageSize(width, height))));
    var ih := InfoHeader(width, height);
    var hb := HeaderBytes(width, height);
    Le32Word(ih, t);
    var o := FileHeaderSize + 4 * t;
    assert hb[o] == Le32(ih)[4 * t] && hb[o + 1] == Le32(ih)[4 * t + 1];
    assert hb[o + 2] == Le32(ih)[4 * t + 2] && hb[o + 3] == Le32(ih)[4 * t + 3];
  }

  /** The bytes of BITMAPFILEHEADER for a file of `size` bytes. */
  lemma FileHeaderBytes(size: uint32)
    ensures var fb := Le16(FileHeader(size));
      fb[0] == 'B' as byte && fb[1] == 'M' as byte &&
      U32At(fb, 2) == size as nat &&
      U16At(fb, 6) == 0 && U16At(fb, 8) == 0 &&
      U32At(fb, 10) == HeadersSize
  {
    var fh := FileHeader(size);
    assert Le16(fh)[0] == 'B' as byte && Le16(fh)[1] == 'M' as byte by {
      Le16At(fh, 0, 0);
      Le16At(fh, 0, 1);
    }
    assert U32At(Le16(fh), 2) == size as nat by {
      Le16Word(fh, 1);
      Le16Word(fh, 2);
      WordsJoin(size);
    }
    assert U16At(Le16(fh), 6) == 0 && U16At(Le16(fh), 8) == 0 by {
      Le16Word(fh, 3);
      Le16Word(fh, 4);
    }
    assert U32At(Le16(fh), 10) == HeadersSize by {
      Le16Word(fh, 5);
      Le16Word(fh, 6);
      WordsJoin(HeadersSize as uint32);
    }
  }

  /** BITMAPFILEHEADER as the header bytes hold it. */
  lemma HeaderFileFields(width: nat, height: nat)
    requires ImageSize(width, height) < 0x1_0000_0000
    ensures var hb := HeaderBytes(width, height);
      hb[0] == 'B' as byte && hb[1] == 'M' as byte &&
      U32At(hb, 2) == ImageSize(width, height) &&
      U16At(hb, 6) == 0 && U16At(hb, 8) == 0 &&
      U32At(hb, 10) == HeadersSize
  {
    var hb := HeaderBytes(width, height);
    var size := ImageSize(width, height);
    var fb := Le16(FileHeader(ToUint32(size)));
    FileHeaderBytes(ToUint32(size));
    assert ToUint32(size) as int == size;
    assert hb[0] == fb[0] && hb[1] == fb[1];
    U32InHeader(hb, fb, 2);
    U16InHeader(hb, fb, 6);
    U16InHeader(hb, fb, 8);
    U32InHeader(hb, fb, 10);
  }

  /** BITMAPFILEHEADER says what the format requires: the "BM" signature, the size of the
      whole file, two reserved zero words and the offset of the pixel array. */
  lemma FileHeaderFields(paint: Painter, width: nat, height: nat)
    requires ValidSize(width, height)
    ensures var img := Image(paint, width, height);
      |img| == ImageSize(width, height) &&
      img[0] == 'B' as byte && img[1] == 'M' as byte &&
      U32At(img, 2) == |img| &&
      U16At(img, 6) == 0 && U16At(img, 8) == 0 &&
      U32At(img, 10) == HeadersSize
  {
    var img := Image(paint, width, height);
    var hb := HeaderBytes(width, height);
    HeaderFileFields(width, height);
    assert img[0] == hb[0] && img[1] == hb[1];
    U32InHeader(img, hb, 2);
    U16InHeader(img, hb, 6);
    U16InHeader(img, hb, 8);
    U32InHeader(img, hb, 10);
  }

  /** The width and the negated height as the header bytes hold them. */
  lemma HeaderDimensions(width: nat, height: nat)
    requires width <= INT_MAX && height <= INT_MAX
    ensures var hb := HeaderBytes(width, height);
      I32At(hb, 18) == width && I32At(hb, 22) == -(height as int)
  {
    var hb := HeaderBytes(width, height);
    assert I32At(hb, 18) == width by {
      InfoHeaderWordAt(width, height, 1);
      assert ToUint32(width) as int == width;
    }
    assert I32At(hb, 22) == -(height as int) by {
      InfoHeaderWordAt(width, height, 2);
      NegatedToUint32(height);
    }
  }

  /** BITMAPINFOHEADER gives the width and, negated to mark a top-down image, the height. */
  lemma InfoHeaderDimensions(paint: Painter, width: nat, height: nat)
    requires ValidSize(width, height)
    ensures var img := Image(paint, width, height);
      |img| == ImageSize(width, height) &&
      I32At(img, 18) == width &&
      I32At(img, 22) == -(height as int)
  {
    var img := Image(paint, width, height);
    var hb := HeaderBytes(width, height);
    HeaderDimensions(width, height);
    U32InHeader(img, hb, 18);
    U32InHeader(img, hb, 22);
  }

  /** `-height` stored in a `std::uint32_t` is its 32-bit two's complement. */
  lemma NegatedToUint32(height: nat)
    requires height <= INT_MAX
    ensures var u := ToUint32(-(height as int)) as int;
      (if u < 0x8000_0000 then u else u - 0x1_0000_0000) == -(height as int)
  {
    if height > 0 {
      assert (-(height as int)) % 0x1_0000_0000 == 0x1_0000_0000 - height;
    }
  }

  /** The remaining BITMAPINFOHEADER fields as the header bytes hold them. */
  lemma HeaderFormat(width: nat, height: nat)
    ensures var hb := HeaderBytes(width, height);
      U32At(hb, 14) == InfoHeaderSize &&
      U16At(hb, 26) == 1 && U16At(hb, 28) == 24 &&
      U32At(hb, 30) == 0 && U32At(hb, 34) == 0 && U32At(hb, 38) == 0 &&
      U32At(hb, 42) == 0 && U32At(hb, 46) == 0 && U32At(hb, 50) == 0
  {
    InfoHeaderWordAt(width, height, 0);
    InfoHeaderPlanes(width, height);
    InfoHeaderZero(width, height, 4);
    InfoHeaderZero(width, height, 5);
    InfoHeaderZero(width, height, 6);
    InfoHeaderZero(width, height, 7);
    InfoHeaderZero(width, height, 8);
    InfoHeaderZero(width, height, 9);
  }

  lemma InfoHeaderPlanes(width: nat, height: nat)
    ensures U16At(HeaderBytes(width, height), 26) == 1 && U16At(HeaderBytes(width, height), 28) == 24
  {
    InfoHeaderWordAt(width, height, 3);
  }

  lemma InfoHeaderZero(width: nat, height: nat, t: nat)
    requires 4 <= t < InfoHeaderWords
    ensures U32At(HeaderBytes(width, height), FileHeaderSize + 4 * t) == 0
  {
    InfoHeaderWordAt(width, height, t);
  }

  /** The rest of BITMAPINFOHEADER: a 40-byte header, one plane of 24 bits per pixel,
      BI_RGB and zero in every remaining field. */
  lemma InfoHeaderFormat(paint: Painter, width: nat, height: nat)
    ensures var img := Image(paint, width, height);
      |img| == ImageSize(width, height) &&
      U32At(img, 14) == InfoHeaderSize &&
      U16At(img, 26) == 1 && U16At(img, 28) == 24 &&
      U32At(img, 30) == 0 && U32At(img, 34) == 0 && U32At(img, 38) == 0 &&
      U32At(img, 42) == 0 && U32At(img, 46) == 0 && U32At(img, 50) == 0
  {
    var img := Image(paint, width, height);
    var hb := HeaderBytes(width, height);
    HeaderFormat(width, height);
    U32InHeader(img, hb, 14);
    U16InHeader(img, hb, 26);
    U16InHeader(img, hb, 28);
    U32InHeader(img, hb, 30);
    U32InHeader(img, hb, 34);
    U32InHeader(img, hb, 38);
    U32InHeader(img, hb, 42);
    U32InHeader(img, hb, 46);
    U32InHeader(img, hb, 50);
  }

  /** A decoder reads back the requested dimensions, as a top-down image. */
  lemma DecodedDimensions(paint: Painter, width: nat, height: nat)
    requires ValidSize(width, height)
    ensures var img := Image(paint, width, height);
      HeadersSize <= |img| &&
      BmpWidth(img) == width && BmpHeight(img) == height && (height > 0 ==> TopDown(img))
  {
    InfoHeaderDimensions(paint, width, height);
  }

  /** A decoder that follows the header fields finds at pixel (i, j) exactly the colour the
      generator painted there. */
  lemma DecodedPixels(paint: Painter, width: nat, height: nat, i: nat, j: nat)
    requires ValidSize(width, height) && i < height && j < width
    ensures var img := Image(paint, width, height);
      HeadersSize <= |img| &&
      PixelOffset(img, i, j) == HeadersSize + i * Pitch(width) + 3 * j &&
      0 <= PixelOffset(img, i, j) && PixelOffset(img, i, j) + 3 <= |img| &&
      DecodedPixel(img, i, j) == paint(i, j)
  {
    var img := Image(paint, width, height);
    MulStrictMono(i, height, Pitch(width));
    FileHeaderFields(paint, width, height);
    InfoHeaderDimensions(paint, width, height);
    InfoHeaderFormat(paint, width, height);
    assert BmpStride(img) == Pitch(width) by {
      PitchIsBmpStride(width);
    }
    PixelAt(paint, width, height, i, j, 0);
    PixelAt(paint, width, height, i, j, 1);
    PixelAt(paint, width, height, i, j, 2);
  }

  // ---------------------------------------------------------------------------------
  // The generator itself

  /** `write_uint32(v, w + at)`: the low word of `v` at `w[at]`, the high word at
      `w[at + 1]`, which together make up `v`. */
  method WriteUint32(v: uint32, w: array<uint16>, at: nat)
    requires at + 2 <= w.Length
    modifies w
    ensures w[..] == old(w[..])[at := LowWord(v)][at + 1 := HighWord(v)]
    ensures w[at] as int + 0x1_0000 * w[at + 1] as int == v as int
  {
    w[at] := (v % 0x1_0000) as uint16;
    w[at + 1] := (v / 0x1_0000 % 0x1_0000) as uint16;
    WordsJoin(v);
  }

  /** `s` with the bytes `bs` written over it from offset `q` on. */
  function Overwrite(s: seq<byte>, q: nat, bs: seq<byte>): (r: seq<byte>)
    requires q + |bs| <= |s|
    ensures |r| == |s| && r[..q] == s[..q] && r[q..q + |bs|] == bs && r[q + |bs|..] == s[q + |bs|..]
  {
    s[..q] + bs + s[q + |bs|..]
  }

  /** Writing `x` and then `y` right after it is writing `x + y`. */
  lemma OverwriteTwice(s: seq<byte>, q: nat, x: seq<byte>, y: seq<byte>)
    requires q + |x| + |y| <= |s|
    ensures Overwrite(Overwrite(s, q, x), q + |x|, y) == Overwrite(s, q, x + y)
  {
    var t := Overwrite(s, q, x);
    assert t[..q + |x|] == s[..q] + x;
  }

  /** The byte image of one more word follows the byte image of the words before it. */
  lemma Le16Snoc(ws: seq<uint16>, t: nat)
    requires t < |ws|
    ensures Le16(ws[..t + 1]) == Le16(ws[..t]) + Le16([ws[t]])
  {
    assert ws[..t + 1][..t] == ws[..t];
  }

  lemma Le32Snoc(ws: seq<uint32>, t: nat)
    requires t < |ws|
    ensures Le32(ws[..t + 1]) == Le32(ws[..t]) + Le32([ws[t]])
  {
    assert ws[..t + 1][..t] == ws[..t];
  }

  /** Stores the little-endian bytes of one 16-bit word at `q`. */
  method PutWord16(dst: array<byte>, q: nat, w: uint16)
    requires q + 2 <= dst.Length
    modifies dst
    ensures dst[..] == Overwrite(old(dst[..]), q, Le16([w]))
  {
    dst[q] := (w % 0x100) as byte;
    dst[q + 1] := (w / 0x100) as byte;
    assert Le16([w]) == [(w % 0x100) as byte, (w / 0x100) as byte];
  }

  /** Stores the little-endian bytes of one 32-bit word at `q`. */
  method PutWord32(dst: array<byte>, q: nat, w: uint32)
    requires q + 4 <= dst.Length
    modifies dst
    ensures dst[..] == Overwrite(old(dst[..]), q, Le32([w]))
  {
    var lo, hi := w as int % 0x1_0000, w as int / 0x1_0000;
    dst[q] := (lo % 0x100) as byte;
    dst[q + 1] := (lo / 0x100) as byte;
    dst[q + 2] := (hi % 0x100) as byte;
    dst[q + 3] := (hi / 0x100) as byte;
    assert Le32([w]) == [(lo % 0x100) as byte, (lo / 0x100) as byte, (hi % 0x100) as byte, (hi / 0x100) as byte];
  }

  /** `memcpy` of an array of 16-bit words into `dst` at `at`, on a little-endian host. */
  method CopyWords16(src: array<uint16>, dst: array<byte>, at: nat)
    requires at + 2 * src.Length <= dst.Length
    modifies dst
    ensures dst[..] == Overwrite(old(dst[..]), at, Le16(src[..]))
  {
    var t := 0;
    while t < src.Length
      invariant 0 <= t <= src.Length
      invariant dst[..] == Overwrite(old(dst[..]), at, Le16(src[..t]))
    {
      Le16Snoc(src[..], t);
      OverwriteTwice(old(dst[..]), at, Le16(src[..t]), Le16([src[t]]));
      PutWord16(dst, at + 2 * t, src[t]);
      t := t + 1;
    }
    assert src[..] == src[..src.Length];
  }

  /** `memcpy` of an array of 32-bit words into `dst` at `at`, on a little-endian host. */
  method CopyWords32(src: array<uint32>, dst: array<byte>, at: nat)
    requires at + 4 * src.Length <= dst.Length
    modifies dst
    ensures dst[..] == Overwrite(old(dst[..]), at, Le32(src[..]))
  {
    var t := 0;
    while t < src.Length
      invariant 0 <= t <= src.Length
      invariant dst[..] == Overwrite(old(dst[..]), at, Le32(src[..t]))
    {
      Le32Snoc(src[..], t);
      OverwriteTwice(old(dst[..]), at, Le32(src[..t]), Le32([src[t]]));
      PutWord32(dst, at + 4 * t, src[t]);
      t := t + 1;
    }
    assert src[..] == src[..src.Length];
  }

  /** `s` holds `x` in its first `q` bytes and zeros after them. */
  predicate Filled(s: seq<byte>, q: nat, x: seq<byte>) {
    q <= |s| && |x| == q && s == x + Zeros(|s| - q)
  }

  /** Writing bytes right after the filled part extends it by them. */
  lemma FillBytes(s: seq<byte>, q: nat, x: seq<byte>, bs: seq<byte>)
    requires Filled(s, q, x) && q + |bs| <= |s|
    ensures Filled(Overwrite(s, q, bs), q + |bs|, x + bs)
  {
    assert s[q + |bs|..] == Zeros(|s| - (q + |bs|));
  }

  /** The zeros already after the filled part extend it. */
  lemma FillZeros(s: seq<byte>, q: nat, x: seq<byte>, z: nat)
    requires Filled(s, q, x) && q + z <= |s|
    ensures Filled(s, q + z, x + Zeros(z))
  {
    assert Zeros(|s| - q) == Zeros(z) + Zeros(|s| - q - z);
  }

  /** The `bitmap_file_header` of the source, zero-initialised and then filled in. */
  method NewFileHeader(size: uint32) returns (w: array<uint16>)
    ensures fresh(w) && w[..] == FileHeader(size)
  {
    w := new uint16[FileHeaderWords](_ => 0);
    w[0] := 19778;
    WriteUint32(size, w, 1);
    WriteUint32(HeadersSize as uint32, w, 5);
  }

  /** The `bitmap_info_header` of the source, zero-initialised and then filled in. */
  method NewInfoHeader(width: nat, height: nat) returns (w: array<uint32>)
    ensures fresh(w) && w[..] == InfoHeader(width, height)
  {
    w := new uint32[InfoHeaderWords](_ => 0);
    w[0] := InfoHeaderSize as uint32;
    w[1] := ToUint32(width);
    w[2] := ToUint32(-(height as int));
    w[3] := 1 + 24 * 0x1_0000;
  }

  /** The header part of `http_get_image`: both headers are filled in and copied to the
      front of the zeroed buffer, and nothing else is touched. */
  method WriteHeaders(data: array<byte>, width: nat, height: nat)
    requires data.Length == ImageSize(width, height)
    requires Filled(data[..], 0, [])
    modifies data
    ensures Filled(data[..], HeadersSize, HeaderBytes(width, height))
  {
    var fileHeader := NewFileHeader(ToUint32(data.Length));
    var infoHeader := NewInfoHeader(width, height);
    FillBytes(data[..], 0, [], Le16(fileHeader[..]));
    CopyWords16(fileHeader, data, 0);
    FillBytes(data[..], FileHeaderSize, Le16(fileHeader[..]), Le32(infoHeader[..]));
    CopyWords32(infoHeader, data, FileHeaderSize);
  }

  /** One pixel's three bytes, stored in the order blue, green, red. */
  method PutPixel(data: array<byte>, q: nat, c: Rgb)
    requires q + 3 <= data.Length
    modifies data
    ensures data[..] == Overwrite(old(data[..]), q, [c.b, c.g, c.r])
  {
    data[q + 2] := c.r;
    data[q + 1] := c.g;
    data[q + 0] := c.b;
  }

  /** One pass of the outer pixel loop: row `i`, which starts at `base`, gets its pixels;
      its padding keeps the zeros the buffer was created with. */
  method PaintRow(data: array<byte>, paint: Painter, width: nat, i: nat, base: nat, ghost before: seq<byte>)
    requires base + Pitch(width) <= data.Length
    requires Filled(data[..], base, before)
    modifies data
    ensures Filled(data[..], base + Pitch(width), before + Row(paint, width, i))
  {
    var j := 0;
    var q := base;
    ghost var done := before;
    while j < width
      invariant 0 <= j <= width && q == base + 3 * j
      invariant done == before + RowPixels(paint, i, j)
      invariant Filled(data[..], q, done)
    {
      var c := paint(i, j);
      FillBytes(data[..], q, done, [c.b, c.g, c.r]);
      PutPixel(data, q, c);
      done := done + [c.b, c.g, c.r];
      q := q + 3;
      j := j + 1;
    }
    FillZeros(data[..], q, done, Pitch(width) - 3 * width);
  }

  /** The outer pixel loop of `http_get_image`: every row after the headers. */
  method PaintRows(data: array<byte>, paint: Painter, width: nat, height: nat, ghost header: seq<byte>)
    requires |header| == HeadersSize && data.Length == HeadersSize + |Rows(paint, width, height)|
    requires Filled(data[..], HeadersSize, header)
    modifies data
    ensures data[..] == header + Rows(paint, width, height)
  {
    var pitch := Pitch(width);
    var i := 0;
    var m := HeadersSize;
    ghost var done := header;
    while i < height
      invariant 0 <= i <= height && done == header + Rows(paint, width, i)
      invariant m == |done| && Filled(data[..], m, done)
    {
      RowsGrow(paint, width, i, height);
      PaintRow(data, paint, width, i, m, done);
      done := done + Row(paint, width, i);
      m := m + pitch;
      i := i + 1;
    }
    assert data[..] == done + Zeros(0);
  }

  /** `http_get_image(width, height, ec, data)` with `data` empty on entry: the buffer is
      sized for both headers and `height` padded rows, the headers are copied in, every
      pixel is painted, and the error code is cleared. */
  method HttpGetImage(width: int, height: int, paint: Painter) returns (data: array<byte>, ec: ErrorCode)
    requires ValidSize(width, height)
    ensures fresh(data)
    ensures data[..] == Image(paint, width, height)
    ensures ec == NoError
  {
    data := new byte[HeadersSize + Pitch(width) * height](_ => 0);
    assert Filled(data[..], 0, []);
    WriteHeaders(data, width, height);
    PaintRows(data, paint, width, height, HeaderBytes(width, height));
    ec := NoError;
  }
}
