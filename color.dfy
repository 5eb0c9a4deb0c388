/** Colour quantisation: the 8-bit "bbgggrrr" direct-select byte of rgb8 and
    the 15-bit BGR palette words that process builds from the image's RGB
    palette. */
module Color {

  import opened Types
  import opened Bits
  import opened Seqs

  /** One pixel of rgb8: blue keeps 2 bits, green and red 3 bits each. */
  function DirectColor(c: Rgb): (b: Byte)
    ensures b % 8 == c.r / 32
    ensures (b / 8) % 8 == c.g / 32
    ensures b / 64 == c.b / 64
  {
    (c.b / 64) * 64 + (c.g / 32) * 8 + c.r / 32
  }

  /** DirectColor applied to every pixel. */
  function Quantized(ps: seq<Rgb>): (r: seq<Byte>)
    ensures |r| == |ps|
    ensures forall k :: 0 <= k < |ps| ==> r[k] == DirectColor(ps[k])
  {
    seq(|ps|, k requires 0 <= k < |ps| => DirectColor(ps[k]))
  }

  /** rgb8: the direct-select byte of every pixel of an image of `width`
      columns, rows top to bottom and each row left to right. */
  method Rgb8(image: seq<seq<Rgb>>, width: nat) returns (result: seq<Byte>)
    requires Uniform(image, width)
    ensures |result| == |image| * width
    ensures result == Quantized(Flatten(image))
  {
    result := [];
    var j := 0;
    while j < |image|
      invariant 0 <= j <= |image|
      invariant result == Quantized(Flatten(image[..j]))
    {
      var i := 0;
      while i < width
        invariant 0 <= i <= width
        invariant result == Quantized(Flatten(image[..j]) + image[j][..i])
      {
        assert image[j][..i + 1] == image[j][..i] + [image[j][i]];
        result := result + [DirectColor(image[j][i])];
        i := i + 1;
      }
      assert image[..j + 1] == image[..j] + [image[j]];
      FlattenConcat(image[..j], [image[j]]);
      assert image[j][..width] == image[j];
      j := j + 1;
    }
    assert image[..j] == image;
    FlattenLength(image, width);
  }

  /** One palette entry from up to three palette bytes r, g, b: each channel
      divided by 8 and packed blue-green-red, five bits apiece. The shift by
      five leaves the low five bits clear, so `x << 5 | y` is `x * 32 + y`. */
  function PaletteWord(chunk: seq<Byte>): (w: nat)
    requires 1 <= |chunk| <= 3
    ensures w < if |chunk| == 1 then 0x20 else if |chunk| == 2 then 0x400 else 0x8000
    ensures w % 32 == chunk[0] / 8
    ensures |chunk| >= 2 ==> (w / 32) % 32 == chunk[1] / 8
    ensures |chunk| == 3 ==> w / 1024 == chunk[2] / 8
  {
    if |chunk| == 1 then chunk[0] / 8 else PaletteWord(chunk[1..]) * 32 + chunk[0] / 8
  }

  /** The number of palette bytes that are converted. */
  function PaletteLength(paletteBytes: nat, bpp: Bpp): (n: nat)
    ensures n <= paletteBytes && n <= 3 * 8 * Pow2(bpp)
    ensures n == paletteBytes || n == 3 * 8 * Pow2(bpp)
  {
    if paletteBytes < 3 * 8 * Pow2(bpp) then paletteBytes else 3 * 8 * Pow2(bpp)
  }

  /** The palette bytes of entry n: three bytes, or fewer at the end. */
  function EntryBytes(palette: seq<Byte>, n: nat): (c: seq<Byte>)
    requires 3 * n < |palette|
    ensures 1 <= |c| <= 3 && 3 * n + |c| <= |palette| && c == palette[3 * n .. 3 * n + |c|]
    ensures |c| == 3 || 3 * n + |c| == |palette|
  {
    palette[3 * n .. if 3 * n + 3 <= |palette| then 3 * n + 3 else |palette|]
  }

  /** The SNES palette: one 15-bit word per three bytes of the palette, which
      is first cut to 3 * 8 * 2^bpp bytes (8 palettes of 2^bpp colours). */
  function PaletteWords(palette: seq<Byte>, bpp: Bpp): (words: seq<Word>)
    ensures |words| == (PaletteLength(|palette|, bpp) + 2) / 3
    ensures |words| <= 8 * Pow2(bpp)
    ensures forall n :: 0 <= n < |words| ==> words[n] <= 0x7FFF
    ensures forall n :: 0 <= n < |words| ==> 3 * n < |palette|
  {
    var count := (PaletteLength(|palette|, bpp) + 2) / 3;
    seq(count, n requires 0 <= n < count => PaletteWord(EntryBytes(palette, n)))
  }

  /** The palette loop of process, a group of three bytes at a time. */
  method BuildPalette(palette: seq<Byte>, bpp: Bpp) returns (words: seq<Word>)
    ensures words == PaletteWords(palette, bpp)
  {
    var len := PaletteLength(|palette|, bpp);
    words := [];
    var i := 0;
    while i < len
      invariant 3 * |words| == i
      invariant i == 0 || i - 3 < len
      invariant forall n :: 0 <= n < |words| ==>
        3 * n < |palette| && words[n] == PaletteWord(EntryBytes(palette, n))
    {
      var end := if i + 3 <= |palette| then i + 3 else |palette|;
      words := words + [PaletteWord(palette[i..end])];
      i := i + 3;
    }
  }
}
