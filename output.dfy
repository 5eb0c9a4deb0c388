/** writeOutput: the .mo7 stream in mode 7, otherwise the .chr characters
    and the .nam tile map; then the .pal palette when there is one. Every
    16-bit word is written with struct.pack("<H"), low byte first. A failed
    assert of one of the writing loops ends the program; the model returns
    None for it. */
module Output {

  import opened Types
  import opened Bits
  import opened Seqs
  import opened Planar
  import opened Chr
  import opened TileMap
  import opened Mode7

  /** The words, each as its low byte followed by its high byte. */
  function LittleEndian(words: seq<Word>): (bytes: seq<Byte>)
    ensures |bytes| == 2 * |words| && |bytes| % 2 == 0
    ensures forall k :: 0 <= k < |words| ==>
      bytes[2 * k] == words[k] % 256 && bytes[2 * k + 1] == words[k] / 256
  {
    if words == [] then []
    else
      var w := words[|words| - 1];
      LittleEndian(words[..|words| - 1]) + [w % 256, w / 256]
  }

  /** Reading a file back as little-endian words. */
  function ReadWords(bytes: seq<Byte>): (words: seq<Word>)
    requires |bytes| % 2 == 0
    ensures |words| == |bytes| / 2
  {
    seq(|bytes| / 2, k requires 0 <= k < |bytes| / 2 => (bytes[2 * k] as int) + 256 * (bytes[2 * k + 1] as int))
  }

  /** Reading back what was written gives the words. */
  lemma ReadLittleEndian(words: seq<Word>)
    ensures ReadWords(LittleEndian(words)) == words
  {
    var bytes := LittleEndian(words);
    forall k | 0 <= k < |words|
      ensures ReadWords(bytes)[k] == words[k]
    {
      DivModUnique(words[k], 256, words[k] / 256, words[k] % 256);
    }
  }

  /** One struct.pack("<H") call per word. */
  method PackWords(words: seq<Word>) returns (bytes: seq<Byte>)
    ensures bytes == LittleEndian(words)
  {
    bytes := [];
    for i := 0 to |words|
      invariant bytes == LittleEndian(words[..i])
    {
      assert words[..i + 1][..i] == words[..i];
      bytes := bytes + [words[i] % 256, words[i] / 256];
    }
    assert words[..|words|] == words;
  }

  /** The assert of the .pal loop: every entry fits in 15 bits. */
  ghost predicate PaletteFits(entries: seq<Word>)
  {
    forall n :: 0 <= n < |entries| ==> entries[n] <= 0x7FFF
  }

  /** The .pal loop's assert over every entry. */
  method CheckPalette(entries: seq<Word>) returns (ok: bool)
    ensures ok <==> PaletteFits(entries)
  {
    for n := 0 to |entries|
      invariant forall m :: 0 <= m < n ==> entries[m] <= 0x7FFF
    {
      if entries[n] > 0x7FFF {
        return false;
      }
    }
    return true;
  }

  /** The four output files; None for a file that is not written. */
  datatype Files = Files(
    mo7: Option<seq<Byte>>,
    chr: Option<seq<Byte>>,
    nam: Option<seq<Byte>>,
    pal: Option<seq<Byte>>)

  /** The tiles' lengths that packTile and crop16x16 rely on. */
  ghost predicate TilesFit(rawTiles: seq<Tile>, size: TileSize)
  {
    if size == Size8x8 then Chars(rawTiles) else Tiles16(rawTiles)
  }

  /** The asserts of the writing loops that run for these options all hold. */
  ghost predicate Writable(tilemap: seq<Entry>, palette: Option<seq<Word>>, size: TileSize, mode7: bool)
  {
    && (mode7 ==> ByteIndices(tilemap))
    && (!mode7 ==> Encodable(tilemap, size))
    && (palette.Some? ==> PaletteFits(palette.value))
  }

  /** The .chr file for the tile size. */
  function ChrFile(rawTiles: seq<Tile>, bpp: Bpp, size: TileSize): seq<Byte>
    requires TilesFit(rawTiles, size)
  {
    if size == Size8x8 then PackAll(rawTiles, bpp) else Chr16File(rawTiles, bpp)
  }

  /** What writeOutput writes when no assert fails. */
  ghost function OutputFiles(rawTiles: seq<Tile>, tilemap: seq<Entry>, palette: Option<seq<Word>>,
                             bpp: Bpp, size: TileSize, mode7: bool): Files
    requires TilesFit(rawTiles, size) && Writable(tilemap, palette, size, mode7)
  {
    Files(
      if mode7 then Some(LittleEndian(Mode7Words(tilemap, Flatten(rawTiles)))) else None,
      if mode7 then None else Some(ChrFile(rawTiles, bpp, size)),
      if mode7 then None else Some(LittleEndian(MapWords(tilemap, size))),
      if palette.None? then None else Some(LittleEndian(palette.value)))
  }

  /** writeOutput on the results of process. */
  method WriteOutput(rawTiles: seq<Tile>, tilemap: seq<Entry>, palette: Option<seq<Word>>,
                     bpp: Bpp, size: TileSize, mode7: bool) returns (r: Option<Files>)
    requires TilesFit(rawTiles, size)
    ensures r.Some? <==> Writable(tilemap, palette, size, mode7)
    ensures r.Some? ==> r.value == OutputFiles(rawTiles, tilemap, palette, bpp, size, mode7)
  {
    var mo7: Option<seq<Byte>> := None;
    var chr: Option<seq<Byte>> := None;
    var nam: Option<seq<Byte>> := None;
    if mode7 {
      var words := Mode7Stream(rawTiles, tilemap);
      if words.None? {
        return None;
      }
      var bytes := PackWords(words.value);
      mo7 := Some(bytes);
    } else {
      var bytes;
      if size == Size8x8 {
        bytes := WriteChr8(rawTiles, bpp);
      } else {
        bytes := WriteChr16(rawTiles, bpp);
      }
      chr := Some(bytes);
      var words := WriteMap(tilemap, size);
      if words.None? {
        return None;
      }
      var mapBytes := PackWords(words.value);
      nam := Some(mapBytes);
    }
    var pal: Option<seq<Byte>> := None;
    if palette.Some? {
      var ok := CheckPalette(palette.value);
      if !ok {
        return None;
      }
      var palBytes := PackWords(palette.value);
      pal := Some(palBytes);
    }
    return Some(Files(mo7, chr, nam, pal));
  }

  /** The .nam file read back gives each entry's (renumbered) index, palette
      and flags. */
  lemma NamReadBack(tilemap: seq<Entry>, size: TileSize, k: nat)
    requires Encodable(tilemap, size) && k < |tilemap|
    ensures var bytes := LittleEndian(MapWords(tilemap, size));
      |bytes| % 2 == 0 && k < |ReadWords(bytes)| &&
      DecodeMapWord(ReadWords(bytes)[k]) ==
      Entry(MapIndex(tilemap[k].index, size), tilemap[k].palette, tilemap[k].flip)
  {
    ReadLittleEndian(MapWords(tilemap, size));
  }

  /** Character m of a .chr file: its 8 * bpp bytes. */
  function CharAt(bytes: seq<Byte>, bpp: Bpp, m: nat): (c: seq<Byte>)
    requires m * (8 * bpp) + 8 * bpp <= |bytes|
    ensures |c| == 8 * bpp
    ensures forall o :: 0 <= o < 8 * bpp ==> c[o] == bytes[m * (8 * bpp) + o]
  {
    bytes[m * (8 * bpp) .. m * (8 * bpp) + 8 * bpp]
  }

  /** Character m of the packed characters is character m packed. */
  lemma CharIsPacked(blocks: seq<Tile>, bpp: Bpp, m: nat)
    requires Chars(blocks) && m < |blocks|
    ensures |PackAll(blocks, bpp)| == |blocks| * (8 * bpp)
    ensures m * (8 * bpp) + 8 * bpp <= |PackAll(blocks, bpp)|
    ensures CharAt(PackAll(blocks, bpp), bpp, m) == PackedTile(blocks[m], bpp)
  {
    var bytes := PackAll(blocks, bpp);
    PackAllIndex(blocks, bpp, m, 0);
    MulMono(m + 1, |blocks|, 8 * bpp);
    assert (m + 1) * (8 * bpp) == m * (8 * bpp) + 8 * bpp;
    forall o | 0 <= o < 8 * bpp
      ensures CharAt(bytes, bpp, m)[o] == PackedTile(blocks[m], bpp)[o]
    {
      PackAllIndex(blocks, bpp, m, o);
    }
  }

  /** Character m of an 8x8 .chr file unpacks to tile m when its pixels
      fit in bpp bits. */
  lemma Chr8ReadBack(rawTiles: seq<Tile>, bpp: Bpp, m: nat)
    requires Chars(rawTiles) && m < |rawTiles|
    requires forall q :: 0 <= q < 64 ==> rawTiles[m][q] < Pow2(bpp)
    ensures var bytes := PackAll(rawTiles, bpp);
      m * (8 * bpp) + 8 * bpp <= |bytes| && Unpack(CharAt(bytes, bpp, m), bpp) == rawTiles[m]
  {
    CharIsPacked(rawTiles, bpp, m);
    UnpackPacked(rawTiles[m], bpp);
  }

  /** Character Renumber(idx) + 16 * half + qx of a 16x16 .chr file unpacks
      to quadrant (qx, half) of tile idx when its pixels fit in bpp bits. */
  lemma Chr16ReadBack(rawTiles: seq<Tile>, bpp: Bpp, idx: nat, half: nat, qx: nat)
    requires Tiles16(rawTiles) && idx < |rawTiles| && half < 2 && qx < 2
    requires forall q :: 0 <= q < 256 ==> rawTiles[idx][q] < Pow2(bpp)
    ensures var bytes := Chr16File(rawTiles, bpp);
      var m := Renumber(idx) + 16 * half + qx;
      m * (8 * bpp) + 8 * bpp <= |bytes| &&
      Unpack(CharAt(bytes, bpp, m), bpp) == Quadrant(rawTiles[idx], qx, half)
  {
    var m := Renumber(idx) + 16 * half + qx;
    ChrBlocksCharacters(rawTiles);
    Chr16Layout(rawTiles, idx, half, qx);
    CharIsPacked(Chr16Blocks(rawTiles), bpp, m);
    QuadrantFits(rawTiles[idx], bpp, qx, half);
    UnpackPacked(Quadrant(rawTiles[idx], qx, half), bpp);
  }

  /** A quadrant's pixels are pixels of its tile. */
  lemma QuadrantFits(t: Tile, bpp: Bpp, qx: nat, half: nat)
    requires |t| == 256 && qx < 2 && half < 2
    requires forall q :: 0 <= q < 256 ==> t[q] < Pow2(bpp)
    ensures forall q :: 0 <= q < 64 ==> Quadrant(t, qx, half)[q] < Pow2(bpp)
  {
    forall q | 0 <= q < 64
      ensures Quadrant(t, qx, half)[q] < Pow2(bpp)
    {
      QuadrantPixels(t, qx, half);
    }
  }
}
