/** The pixel-buffer side of QR detection: flattening an RGB image into a
    byte array, and `RgbLuminanceSource`, which reads grey levels out of
    such an array and builds new sources from grey levels. The grey-level
    weighting is a parameter `lum`, standing for the truncated weighted sum
    of the three channels. */
module PixelBuffer {
  import opened Wrappers

  newtype byte = x: int | 0 <= x < 256

  datatype Rgb = Rgb(r: byte, g: byte, b: byte)

  /** A loaded image: `height` rows of `width` pixels each. */
  datatype Image = Image(width: nat, height: nat, rows: seq<seq<Rgb>>)

  predicate WellFormed(img: Image) {
    && |img.rows| == img.height
    && forall y :: 0 <= y < |img.rows| ==> |img.rows[y]| == img.width
  }

  /** The grey level of one pixel given its three channels. */
  type Luminance = (byte, byte, byte) -> byte

  /** The three channel bytes of a pixel, in R, G, B order. */
  function PixelBytes(p: Rgb): seq<byte> {
    [p.r, p.g, p.b]
  }

  /** Reference layout of one row: its pixels' bytes one after another. */
  function RowBytes(row: seq<Rgb>): (bs: seq<byte>)
    ensures |bs| == 3 * |row|
  {
    if row == [] then [] else RowBytes(row[..|row| - 1]) + PixelBytes(row[|row| - 1])
  }

  /** Reference layout of an image: its rows one after another. */
  function ImageBytes(rows: seq<seq<Rgb>>): seq<byte> {
    if rows == [] then [] else ImageBytes(rows[..|rows| - 1]) + RowBytes(rows[|rows| - 1])
  }

  /** Where channel `c` of pixel (x, y) lives in a row-major RGB buffer. */
  function Offset(width: nat, x: nat, y: nat, c: nat): nat {
    (y * width + x) * 3 + c
  }

  /** Channel `c` of a pixel. */
  function Channel(p: Rgb, c: nat): byte
    requires c < 3
  {
    if c == 0 then p.r else if c == 1 then p.g else p.b
  }

  lemma {:induction false} RowBytesAt(row: seq<Rgb>, x: nat, c: nat)
    requires x < |row| && c < 3
    ensures RowBytes(row)[3 * x + c] == Channel(row[x], c)
  {
    var last := |row| - 1;
    if x < last {
      assert row[..last][x] == row[x];
      RowBytesAt(row[..last], x, c);
    }
  }

  lemma {:induction false} ImageBytesLength(rows: seq<seq<Rgb>>, width: nat)
    requires forall y :: 0 <= y < |rows| ==> |rows[y]| == width
    ensures |ImageBytes(rows)| == |rows| * width * 3
  {
    if rows != [] {
      ImageBytesLength(rows[..|rows| - 1], width);
      assert |rows| * width * 3 == (|rows| - 1) * width * 3 + width * 3;
    }
  }

  lemma {:induction false} ImageBytesAt(rows: seq<seq<Rgb>>, width: nat, x: nat, y: nat, c: nat)
    requires forall yy :: 0 <= yy < |rows| ==> |rows[yy]| == width
    requires x < width && y < |rows| && c < 3
    ensures Offset(width, x, y, c) < |ImageBytes(rows)|
    ensures ImageBytes(rows)[Offset(width, x, y, c)] == Channel(rows[y][x], c)
  {
    var last := |rows| - 1;
    var init := rows[..last];
    ImageBytesLength(rows, width);
    ImageBytesLength(init, width);
    assert Offset(width, x, y, c) == y * width * 3 + (3 * x + c);
    if y < last {
      assert init[y] == rows[y];
      ImageBytesAt(init, width, x, y, c);
      assert Offset(width, x, y, c) < |ImageBytes(init)|;
    } else {
      assert y * width * 3 == |ImageBytes(init)|;
      RowBytesAt(rows[last], x, c);
    }
  }

  /** Where the bytes of the first rows end, and what the next row adds. */
  lemma {:induction false} PrefixFits(img: Image, y: nat)
    requires WellFormed(img) && y < img.height
    ensures |ImageBytes(img.rows[..y])| + 3 * img.width <= img.width * img.height * 3
    ensures ImageBytes(img.rows[..y + 1]) == ImageBytes(img.rows[..y]) + RowBytes(img.rows[y])
  {
    var next := img.rows[..y + 1];
    assert next[..y] == img.rows[..y];
    assert ImageBytes(next) == ImageBytes(img.rows[..y]) + RowBytes(img.rows[y]);
    ImageBytesLength(next, img.width);
    RowsFit(y + 1, img.height, img.width);
  }

  /** Fewer rows of the same width take no more bytes. */
  lemma {:induction false} RowsFit(rows: nat, height: nat, width: nat)
    requires rows <= height
    ensures rows * width * 3 <= width * height * 3
  {
    assert width * height * 3 - rows * width * 3 == (height - rows) * width * 3;
  }

  /** The reference layout puts channel c of pixel (x, y) at its offset. */
  lemma {:induction false} ImageBytesLayout(img: Image)
    requires WellFormed(img)
    ensures |ImageBytes(img.rows)| == img.width * img.height * 3
    ensures forall x, y, c :: 0 <= x < img.width && 0 <= y < img.height && 0 <= c < 3 ==>
              Offset(img.width, x, y, c) < |ImageBytes(img.rows)|
              && ImageBytes(img.rows)[Offset(img.width, x, y, c)] == Channel(img.rows[y][x], c)
  {
    ImageBytesLength(img.rows, img.width);
    forall x, y, c | 0 <= x < img.width && 0 <= y < img.height && 0 <= c < 3
      ensures Offset(img.width, x, y, c) < |ImageBytes(img.rows)|
              && ImageBytes(img.rows)[Offset(img.width, x, y, c)] == Channel(img.rows[y][x], c)
    {
      ImageBytesAt(img.rows, img.width, x, y, c);
    }
  }

  /** `GetImageBytes`: a buffer of width * height * 3 bytes, filled row by
      row, pixel by pixel, with R, G, B. */
  method GetImageBytes(img: Image) returns (bytes: seq<byte>)
    requires WellFormed(img)
    ensures bytes == ImageBytes(img.rows)
    ensures |bytes| == img.width * img.height * 3
    ensures forall x, y, c :: 0 <= x < img.width && 0 <= y < img.height && 0 <= c < 3 ==>
              Offset(img.width, x, y, c) < |bytes| && bytes[Offset(img.width, x, y, c)] == Channel(img.rows[y][x], c)
  {
    var buffer := new byte[img.width * img.height * 3];
    var index := 0;
    for y := 0 to img.height
      invariant index == |ImageBytes(img.rows[..y])|
      invariant index <= buffer.Length
      invariant buffer[..index] == ImageBytes(img.rows[..y])
    {
      PrefixFits(img, y);
      assert |img.rows[y]| == img.width;
      ghost var before := buffer[..index];
      index := CopyRow(buffer, index, img.rows[y]);
      assert buffer[..index] == before + RowBytes(img.rows[y]);
    }
    assert img.rows[..img.height] == img.rows;
    ImageBytesLayout(img);
    assert index == buffer.Length;
    bytes := buffer[..];
    assert bytes == buffer[..index];
  }

  /** The inner loop of `GetImageBytes`: one row's pixels written from `start`. */
  method CopyRow(buffer: array<byte>, start: nat, row: seq<Rgb>) returns (next: nat)
    requires start + 3 * |row| <= buffer.Length
    modifies buffer
    ensures next == start + 3 * |row|
    ensures buffer[..next] == old(buffer[..start]) + RowBytes(row)
  {
    next := start;
    for x := 0 to |row|
      invariant next == start + 3 * x
      invariant buffer[..next] == old(buffer[..start]) + RowBytes(row[..x])
    {
      ghost var done := buffer[..next];
      buffer[next] := row[x].r;
      buffer[next + 1] := row[x].g;
      buffer[next + 2] := row[x].b;
      next := next + 3;
      assert buffer[..next] == done + PixelBytes(row[x]);
      assert row[..x + 1][..x] == row[..x];
      assert RowBytes(row[..x + 1]) == RowBytes(row[..x]) + PixelBytes(row[x]);
    }
    assert row[..|row|] == row;
  }

  /** An `RgbLuminanceSource`: its RGB buffer and dimensions. */
  datatype Source = Source(rgbData: seq<byte>, width: nat, height: nat)

  /** The buffer holds at least `width * height` pixels. */
  predicate Covers(src: Source) {
    src.width * src.height * 3 <= |src.rgbData|
  }

  /** The grey level of the pixel at flat position `i`. */
  function LumAt(src: Source, lum: Luminance, i: nat): byte
    requires i * 3 + 2 < |src.rgbData|
  {
    lum(src.rgbData[i * 3], src.rgbData[i * 3 + 1], src.rgbData[i * 3 + 2])
  }

  /** Row `y` of a covering buffer lies inside it. */
  lemma {:induction false} RowCovered(src: Source, y: nat)
    requires Covers(src) && y < src.height
    ensures (y * src.width + src.width) * 3 <= |src.rgbData|
  {
    assert y * src.width + src.width == (y + 1) * src.width;
    assert (y + 1) * src.width <= src.height * src.width;
  }

  /** `getRow`: row `y` in grey levels. A missing or too short buffer is
      replaced by a fresh one of exactly `width` zeros; a long enough one is
      reused, and its entries beyond `width` are left as they were. */
  method GetRow(src: Source, lum: Luminance, y: nat, row: Option<seq<byte>>) returns (out: seq<byte>)
    requires Covers(src) && y < src.height
    ensures row.None? || |row.value| < src.width ==> |out| == src.width
    ensures row.Some? && |row.value| >= src.width ==> |out| == |row.value| && out[src.width..] == row.value[src.width..]
    ensures forall x :: 0 <= x < src.width ==>
              (y * src.width + x) * 3 + 2 < |src.rgbData| && out[x] == LumAt(src, lum, y * src.width + x)
  {
    var buffer: array<byte>;
    if row.None? || |row.value| < src.width {
      buffer := new byte[src.width];
    } else {
      buffer := new byte[|row.value|](i requires 0 <= i < |row.value| => row.value[i]);
    }
    RowCovered(src, y);
    var base := y * src.width;
    ghost var tail := buffer[src.width..];
    for x := 0 to src.width
      invariant buffer[src.width..] == tail
      invariant forall k :: 0 <= k < x ==> buffer[k] == LumAt(src, lum, base + k)
    {
      var offset := (base + x) * 3;
      buffer[x] := lum(src.rgbData[offset], src.rgbData[offset + 1], src.rgbData[offset + 2]);
    }
    out := buffer[..];
  }

  /** `Matrix` (`GetLuminanceArray`): every pixel's grey level, row-major. */
  method GetLuminanceArray(src: Source, lum: Luminance) returns (m: seq<byte>)
    requires Covers(src)
    ensures |m| == src.width * src.height
    ensures forall i :: 0 <= i < |m| ==> i * 3 + 2 < |src.rgbData| && m[i] == LumAt(src, lum, i)
  {
    var luminance := new byte[src.width * src.height];
    for i := 0 to luminance.Length
      invariant forall k :: 0 <= k < i ==> k * 3 + 2 < |src.rgbData| && luminance[k] == LumAt(src, lum, k)
    {
      var offset := i * 3;
      luminance[i] := lum(src.rgbData[offset], src.rgbData[offset + 1], src.rgbData[offset + 2]);
    }
    m := luminance[..];
  }

  /** Reference: each grey level repeated as R, G and B. */
  function GrayExpansion(levels: seq<byte>): (bs: seq<byte>)
    ensures |bs| == 3 * |levels|
  {
    if levels == [] then [] else GrayExpansion(levels[..|levels| - 1]) + PixelBytes(GrayPixel(levels[|levels| - 1]))
  }

  function GrayPixel(level: byte): Rgb {
    Rgb(level, level, level)
  }

  /** `CreateLuminanceSource`: a new source whose buffer repeats each grey
      level three times. */
  method CreateLuminanceSource(newLuminances: seq<byte>, width: nat, height: nat) returns (src: Source)
    ensures src.width == width && src.height == height
    ensures src.rgbData == GrayExpansion(newLuminances)
    ensures forall i :: 0 <= i < |newLuminances| ==>
              i * 3 + 2 < |src.rgbData|
              && src.rgbData[i * 3] == newLuminances[i]
              && src.rgbData[i * 3 + 1] == newLuminances[i]
              && src.rgbData[i * 3 + 2] == newLuminances[i]
  {
    var rgbData := new byte[|newLuminances| * 3];
    for i := 0 to |newLuminances|
      invariant rgbData[..i * 3] == GrayExpansion(newLuminances[..i])
    {
      var luminance := newLuminances[i];
      rgbData[i * 3] := luminance;
      rgbData[i * 3 + 1] := luminance;
      rgbData[i * 3 + 2] := luminance;
      assert newLuminances[..i + 1][..i] == newLuminances[..i];
    }
    assert newLuminances[..|newLuminances|] == newLuminances;
    src := Source(rgbData[..], width, height);
    forall i | 0 <= i < |newLuminances|
      ensures i * 3 + 2 < |src.rgbData|
              && src.rgbData[i * 3] == newLuminances[i]
              && src.rgbData[i * 3 + 1] == newLuminances[i]
              && src.rgbData[i * 3 + 2] == newLuminances[i]
    {
      GrayExpansionAt(newLuminances, i);
    }
  }

  lemma {:induction false} GrayExpansionAt(levels: seq<byte>, i: nat)
    requires i < |levels|
    ensures var bs := GrayExpansion(levels);
            bs[i * 3] == levels[i] && bs[i * 3 + 1] == levels[i] && bs[i * 3 + 2] == levels[i]
  {
    var last := |levels| - 1;
    if i < last {
      assert levels[..last][i] == levels[i];
      GrayExpansionAt(levels[..last], i);
    }
  }

  /** Grey levels come back from a trip through `CreateLuminanceSource`
      within one level below the original whenever `lum` maps an
      equal-channel pixel to that value or to one less, which is what a
      truncated floating-point weighting whose weights sum to one does. */
  lemma {:induction false} GrayRoundTrip(levels: seq<byte>, width: nat, height: nat, lum: Luminance, i: nat)
    requires forall v: byte :: lum(v, v, v) == v || lum(v, v, v) as int + 1 == v as int
    requires i < |levels|
    ensures var src := Source(GrayExpansion(levels), width, height);
            && i * 3 + 2 < |src.rgbData|
            && (LumAt(src, lum, i) == levels[i] || LumAt(src, lum, i) as int + 1 == levels[i] as int)
  {
    GrayExpansionAt(levels, i);
  }

  /** The grey level a source built from an image reports for pixel (x, y)
      is `lum` of that pixel's own channels. */
  lemma {:induction false} ImageSourcePixel(img: Image, lum: Luminance, x: nat, y: nat)
    requires WellFormed(img) && x < img.width && y < img.height
    ensures var src := Source(ImageBytes(img.rows), img.width, img.height);
            && Covers(src)
            && (y * img.width + x) * 3 + 2 < |src.rgbData|
            && LumAt(src, lum, y * img.width + x) == lum(img.rows[y][x].r, img.rows[y][x].g, img.rows[y][x].b)
  {
    ImageBytesLength(img.rows, img.width);
    ImageBytesAt(img.rows, img.width, x, y, 0);
    ImageBytesAt(img.rows, img.width, x, y, 1);
    ImageBytesAt(img.rows, img.width, x, y, 2);
  }
}
