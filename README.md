# SNES tile tool, modelled in Dafny

This project models the encoding engine of `snes-tile-tool.py`. That
script converts an indexed (or, for CG Direct Select, true-colour) image
into Super Nintendo graphics data.

How an image is processed:

- **Validation.** The options are checked against each other and against
  the image (mode 7 needs 8 bpp and 8x8 tiles; direct select needs 8 bpp;
  the image must be paletted with an RGB palette unless direct select is
  on; the sides must be multiples of the tile size).
- **Palette number.** The image is cut into 8x8 or 16x16 cells, row by
  row. Each cell gets a palette number: `pixel >> bpp` of its last
  non-transparent pixel, then `& 7`. A cell whose opaque pixels disagree
  gets a warning.
- **Masking.** Each pixel is masked to its low `bpp` bits.
- **Deduplication (optional).** Cells are deduplicated against a store of
  unique tiles, optionally up to horizontal and vertical mirroring. Each
  cell gets a tile-map entry (tile index, palette number, flip flags).
- **Palette.** The image palette becomes BGR555 words, cut to 8 * 2^bpp
  entries. With direct select, each pixel becomes a `bbgggrrr` byte
  instead.

How the results are written:

- **Mode 7.** The indices and the tiles' bytes are interleaved into one
  word stream (.mo7).
- **Otherwise, characters (.chr).** The tiles are packed into SNES planar
  characters. 16x16 tiles are split into four 8x8 quadrants in the SNES
  character layout.
- **Otherwise, tile map (.nam).** The map becomes 16-bit words
  `flip << 14 | palette << 10 | index`, with 16x16 indices renumbered.
- **Palette (.pal).** Written whenever there is a palette.
- Every word is written little-endian.

Modules, one per stage:

- `Types`, `Bits`, `Seqs`: shared values, bit arithmetic on naturals, and
  sequence lemmas.
- `Config`: the option checks at the top of `process`.
- `Color`: `rgb8` and the palette words.
- `Mirror`: `mirrorH`, `mirrorV` and the flips a tile-map entry names.
- `Extract`: palette-number resolution and masking for one cell.
- `Dedup`: the tile store (`rawTiles` plus `optimizedTileIndex`) and its
  invariant.
- `Process`: the cell loops of `process` and the whole of `process` on a
  decoded image.
- `Planar`: `packPlane`/`packTile` and their inverse.
- `Chr`: `crop16x16` and both layouts of the .chr file.
- `TileMap`: the .nam words.
- `Mode7`: the .mo7 stream.
- `Output`: `writeOutput`.
- `Tool`: `process` followed by `writeOutput`, as `main` runs them.

The loops of the source are methods with loop invariants. Each method is
proved equal to a specification function, and that function's properties
are proved as lemmas. Bit operations are modelled on naturals:

- `x >> n` is repeated halving;
- `x & (2^n - 1)` is `x % 2^n`;
- `a << s | b` is `a * 2^s + b` wherever the fields cannot overlap, which
  holds at every place the source uses it.

Three details of the code that the model keeps:

- The palette number is taken from the *last* opaque pixel of a cell,
  because the loop overwrites it on every opaque pixel (line 111).
- Mode 7 turns off mirror optimisation only (lines 54-56). Duplicate
  optimisation still applies when it is requested.
- By the formula at line 164, the palette word of (255, 128, 0) is
  `16 << 5 | 31 = 0x21F`.

## Model

| member | source | states |
|---|---|---|
| Config.Validate | snes-tile-tool.py:51-71 | The options pass exactly when mode 7 has 8 bpp and 8x8 tiles, direct select has 8 bpp, a non-direct image is paletted with an RGB palette, and both sides are multiples of the tile side. Each Error is raised exactly under its own condition, in the source's order. Mode 7 clears mirror optimisation and reports that it did. |
| Color.DirectColor | snes-tile-tool.py:32-33 | The byte's bits 0-2 are r / 32, bits 3-5 are g / 32 and bits 6-7 are b / 64, so the byte is below 256. |
| Color.Quantized | snes-tile-tool.py:26-33 | One direct-colour byte per pixel, in order. |
| Color.Rgb8 | snes-tile-tool.py:22-34 | The nested row/column loop yields width * height bytes, equal to the direct colour of each pixel in row-major order. |
| Color.PaletteWord | snes-tile-tool.py:162-165 | The reduce over the reversed r, g, b gives a word whose bits 0-4, 5-9 and 10-14 are r / 8, g / 8 and b / 8, and which is at most 0x7FFF. A short last chunk gives fewer fields. |
| Color.PaletteLength | snes-tile-tool.py:157-160 | The palette is cut to min(len, 3 * 8 * 2^bpp) bytes. |
| Color.EntryBytes | snes-tile-tool.py:161-163 | The bytes palette[3n .. 3n + 3], cut short only at the end of the palette. |
| Color.PaletteWords | snes-tile-tool.py:152-166 | ceil(length / 3) words, at most 8 * 2^bpp of them, each at most 0x7FFF. |
| Color.BuildPalette | snes-tile-tool.py:152-166 | The `range(0, paletteLen, 3)` loop yields exactly PaletteWords. |
| Mirror.MirrorH | snes-tile-tool.py:36-41 | The row-by-row loop yields every row of the tile reversed, rows in order. |
| Mirror.MirrorV | snes-tile-tool.py:43-46 | mirrorV keeps the length, and cutting its result into rows of `stride` bytes gives the tile's rows in reverse order. |
| Mirror.LengthsMirrored | snes-tile-tool.py:36-46 | mirrorH and mirrorV keep the tile's length. |
| Mirror.MirrorHInvolution | snes-tile-tool.py:36-41 | mirrorH applied twice gives back the tile. |
| Mirror.MirrorVInvolution | snes-tile-tool.py:43-46 | mirrorV applied twice gives back the tile. |
| Mirror.MirrorsCommute | snes-tile-tool.py:120-122 | mirrorV(mirrorH(t)) == mirrorH(mirrorV(t)), so rawTileHV is the flip on both axes. |
| Mirror.FlipUndoesMirror | snes-tile-tool.py:120-133 | Flipping rawTileH by flags 0b01, rawTileV by 0b10 and rawTileHV by 0b11 gives back the tile. |
| Extract.LastOpaque | snes-tile-tool.py:100-111 | The position of an opaque pixel (pixel & mask != 0) with no opaque pixel after it; none exactly when every pixel is transparent. |
| Extract.PaletteNumber | snes-tile-tool.py:97-115 | The palette number is below 8: the last opaque pixel's `pixel >> bpp`, then `& 7`, or 0 for a fully transparent tile. |
| Extract.Latest | snes-tile-tool.py:100-111 | After i pixels, `paletteNum` is None exactly when all of them were transparent. Otherwise it is the group of one of them. |
| Extract.WarnedIffMixed | snes-tile-tool.py:99-110 | The warning is raised exactly when two opaque pixels of the tile have different groups. While none has been raised, all opaque pixels so far share the current group. |
| Extract.ResolvePalette | snes-tile-tool.py:97-115 | The pixel loop yields PaletteNumber. It warns exactly when the tile mixes palettes. |
| Extract.SinglePalette | snes-tile-tool.py:104-111 | A tile that does not mix palettes gets the palette of any of its opaque pixels. |
| Extract.NoGroupAt8Bpp | snes-tile-tool.py:105-106 | At 8 bpp every palette number is 0 and no tile warns. |
| Extract.Masked | snes-tile-tool.py:118 | Masking keeps the length and maps every byte to byte % 2^bpp, which is below 2^bpp. |
| Extract.MaskedIdempotent | snes-tile-tool.py:118 | Masking twice is masking once. |
| Dedup.Match | snes-tile-tool.py:124-138 | An exact hit always wins, with flags 0. Otherwise, with mirror optimisation, the first of H, V, HV in the dictionary is taken, with its flags. There is no match exactly when neither the tile nor, with mirror optimisation, any mirror is a key. |
| Dedup.Lookup | snes-tile-tool.py:124-138 | The candidate loop with its `break`, then the exact-hit override, computes Match. Without a match the flags stay 0. |
| Dedup.Place | snes-tile-tool.py:124-145 | One cell either leaves the list of stored tiles unchanged or appends that cell's tile. Without dedup it always appends, leaves the dictionary alone and refers to the cell's position unflipped. With dedup it appends exactly when Match finds nothing, and then sets the dictionary entry and refers to the new last tile unflipped. Otherwise it refers to the match. |
| Dedup.DedupAll | snes-tile-tool.py:119-150 | One reference per cell. What the store and references mean is stated by Dedup.DedupAllInvariant and Dedup.DedupAllProperties. |
| Dedup.DedupAllSnoc | snes-tile-tool.py:119-150 | One more cell deduplicates as one more Place step on the store after the earlier cells. |
| Dedup.FlippedCandidate | snes-tile-tool.py:120-134 | The stored variant found for flags f, flipped by f, gives back the tile. |
| Dedup.PlaceKeeps | snes-tile-tool.py:124-145 | One cell's step keeps the store invariant: references in range and reconstructing, stored tiles from the input, dictionary consistent with the list, exact hits unflipped, no stored tile a mirror of an earlier one. |
| Dedup.DedupAllInvariant | snes-tile-tool.py:124-145 | The store invariant holds after every prefix of the cells. |
| Dedup.DedupAllProperties | snes-tile-tool.py:124-145 | Every reference is in range with flags below 4, and flips its stored tile back into the cell's tile. Without dedup, every tile is appended and cell k refers to tile k unflipped. With dedup, stored tiles are pairwise distinct and exactly the dictionary's keys, a stored tile is referred to unflipped, and with mirror optimisation no stored tile is a mirror of an earlier one. |
| Process.CropRows | snes-tile-tool.py:84-86 | The crop box (x, y, x + side, y + side): side rows of side pixels, pixel (a, b) being image pixel (x + a, y + b). |
| Process.RawCell | snes-tile-tool.py:84-94 | A cell's raw tile has side * side bytes: the crop's bytes, or their rgb8 bytes with direct select. |
| Process.CellGrid | snes-tile-tool.py:82-86 | Cell (i, j) of the grid is the raw tile at (i * side, j * side). |
| Process.Cells | snes-tile-tool.py:82-94 | The cells in row-major order: mapW * mapH tiles of side * side bytes. |
| Process.MaskAll | snes-tile-tool.py:118 | Every cell masked, lengths kept. |
| Process.ProgressStep | snes-tile-tool.py:84-150 | One more cell extends the store, the references, the map and the warnings by that cell's step. |
| Process.ProcessCell | snes-tile-tool.py:84-150 | The body of the cell loop extends the loop state by the next cell in row-major order. |
| Process.ProcessRow | snes-tile-tool.py:83-150 | The inner loop over i extends the loop state by one whole row of cells. |
| Process.ExtractCell | snes-tile-tool.py:84-118 | The masked raw tile, palette number and warning of cell (i, j). |
| Process.Insert | snes-tile-tool.py:119-145 | The mirrored variants, the lookup and the append on a miss produce the store and reference of Place. |
| Process.CutTiles | snes-tile-tool.py:79-150 | rawTiles is the store after deduplicating the masked cells. Each tile-map entry has its cell's reference and palette number (0 with direct select). Each warning flag is its cell's palette mix. |
| Process.ProcessedTiles | snes-tile-tool.py:118-150 | Every stored tile has side * side bytes below 2^bpp. Every entry names a stored tile that, flipped by the entry's flags, is the masked cell. |
| Process.MaskedStore | snes-tile-tool.py:118-150 | ProcessedTiles for any cells of side * side bytes. |
| Process.Process | snes-tile-tool.py:48-168 | On failed checks, the checks' Error. Otherwise the tiles, tile map and warnings of CutTiles, the palette words unless direct select is on, and the mode 7 mirror warning. |
| Planar.PackBitsBits | snes-tile-tool.py:177 | The `(x << 1) \| y` reduce puts bit i of the list at position n - 1 - i, and fits in n bits. |
| Planar.PackPlane | snes-tile-tool.py:171-179 | Bit 7 - i of the byte is bit `plane` of pixel i of the row. |
| Planar.ByteIndexInverse | snes-tile-tool.py:186-188 | Each (row, plane) pair below bpp planes has its own output byte among the 8 * bpp bytes, with row k // 2 % 8 and plane 2 * (k >> 4) \| (k & 1). |
| Planar.PackedTile | snes-tile-tool.py:181-192 | A 64-pixel tile packs into exactly 8 * bpp bytes. |
| Planar.PackTile | snes-tile-tool.py:181-192 | The output loop yields PackedTile. |
| Planar.PackedTileBits | snes-tile-tool.py:185-190 | Bit 7 - i of output byte k is bit PlaneOf(k) of pixel i of row RowOf(k). |
| Planar.Unpack | snes-tile-tool.py:181-192 | Reading the 64 pixels back from the bpp planes gives a 64-pixel tile. |
| Planar.UnpackPacked | snes-tile-tool.py:181-192 | Unpacking a packed tile whose pixels are below 2^bpp gives back the tile. |
| Chr.RectRows | snes-tile-tool.py:194-200 | The rectangle's rows: row b, pixel a is tile pixel 16 * (y0 + b) + x0 + a. |
| Chr.Crop16 | snes-tile-tool.py:194-200 | The nested loop yields the rectangle's bytes row-major. |
| Chr.CropRow | snes-tile-tool.py:197-198 | The inner loop appends row j's bytes x0 .. x1. |
| Chr.Quadrant | snes-tile-tool.py:238-239 | An 8x8 quadrant has 64 bytes. |
| Chr.QuadrantPixels | snes-tile-tool.py:194-200 | Pixel p of quadrant (qx, qy) is tile pixel 16 * (8 * qy + p / 8) + 8 * qx + p % 8. |
| Chr.Blank | snes-tile-tool.py:244-245 | The padding character: 64 zero bytes. |
| Chr.Pair | snes-tile-tool.py:235-245 | The left and right quadrants of one half of a tile, or two blank characters past the end. |
| Chr.HalfCount | snes-tile-tool.py:232-243 | The inner loop visits 8 tiles, or stops at the last tile in the bottom half of the last group. |
| Chr.HalfPairs | snes-tile-tool.py:232-247 | The pairs of one half-row: pair i is that of tile k + i. |
| Chr.GroupCount | snes-tile-tool.py:230 | ceil(n / 8) groups of 8 tiles. |
| Chr.Groups | snes-tile-tool.py:230-247 | One group of characters per 8 tiles. |
| Chr.PackAllConcat | snes-tile-tool.py:246-247 | Writing two runs of characters one after the other packs their concatenation. |
| Chr.PackAllIndex | snes-tile-tool.py:224-226 | Byte o of character m is at m * 8 * bpp + o. |
| Chr.WriteChr8 | snes-tile-tool.py:224-226 | The 8x8 loop writes every tile packed, in order. |
| Chr.HalfStep | snes-tile-tool.py:233-247 | One step of the inner loop writes the pair of tile k + i, blank padding, or nothing on the skipped last half-row. |
| Chr.WriteHalf | snes-tile-tool.py:232-247 | The inner loop writes the half-row's characters packed. |
| Chr.HalfBytesRow | snes-tile-tool.py:232-247 | The bytes after i steps are the packed first pairs of the half-row. |
| Chr.CropHalves | snes-tile-tool.py:238-239 | The two crop16x16 calls give the left and right quadrants of half j. |
| Chr.WriteChr16 | snes-tile-tool.py:227-247 | The three nested loops write the 16x16 layout packed. |
| Chr.Chr16Layout | snes-tile-tool.py:227-247 | Character Renumber(idx) + 16 * half + qx of the file is quadrant (qx, half) of tile idx. |
| Chr.Chr16Padding | snes-tile-tool.py:240-245 | In the top half of the last group, the slots past the last tile are blank characters. |
| Chr.Chr16Count | snes-tile-tool.py:227-247 | The file has 32 * (G - 1) + 16 + 2 * r characters for G groups with r tiles in the last one, and none for no tiles. |
| Chr.Chr16Bytes | snes-tile-tool.py:227-247 | Byte o of that character is byte o of the packed quadrant. |
| Chr.ChrBlocksCharacters | snes-tile-tool.py:227-247 | Every block of the 16x16 layout is a 64-byte character. |
| TileMap.Renumber | snes-tile-tool.py:255 | The top-left character of 16x16 tile `index` lies at most 14 places into the band of 32 characters of group index // 8, so the characters +1, +16 and +17 of its other quadrants fall in that band too. |
| TileMap.RenumberFits | snes-tile-tool.py:255-256 | A renumbered 16x16 index fits the 10-bit field exactly when the tile index is at most 255. |
| TileMap.QuadrantsDisjoint | snes-tile-tool.py:255 | The characters Renumber(i) + 0, 1, 16, 17 of different tiles never coincide. |
| TileMap.MapWord | snes-tile-tool.py:256-259 | The word holds the index in bits 0-9, the palette in bits 10-12 and the flags in bits 14-15. Bit 13 stays clear. |
| TileMap.DecodeMapWord | snes-tile-tool.py:259 | Each decoded field is within its width. |
| TileMap.MapWordRoundTrip | snes-tile-tool.py:256-259 | Decoding the word gives back index, palette and flags. |
| TileMap.MapWords | snes-tile-tool.py:250-261 | One word per entry, decoding to its renumbered index, palette and flags. |
| TileMap.WriteMap | snes-tile-tool.py:250-261 | The .nam loop passes its asserts exactly when every entry fits, and then yields MapWords. |
| Mode7.Mode7Word | snes-tile-tool.py:213-219 | Low byte: the map index or 0. High byte: the flat colour byte or 0. |
| Mode7.Mode7Words | snes-tile-tool.py:210-221 | max(len(flat), len(tilemap)) words, each with those two bytes. |
| Mode7.Mode7Stream | snes-tile-tool.py:207-221 | The .mo7 loop passes its assert exactly when every index is at most 255, and then yields Mode7Words. |
| Output.LittleEndian | snes-tile-tool.py:221 | Word k is written as bytes 2k (low) and 2k + 1 (high). |
| Output.ReadLittleEndian | snes-tile-tool.py:221 | Reading the bytes back as little-endian words gives back the words. |
| Output.PackWords | snes-tile-tool.py:261 | One struct.pack("<H") per word yields LittleEndian. |
| Output.CheckPalette | snes-tile-tool.py:265-266 | The .pal assert passes exactly when every entry is at most 32767. |
| Output.WriteOutput | snes-tile-tool.py:202-268 | writeOutput completes exactly when the asserts of the loops it runs hold. The files are then the .mo7 stream in mode 7, otherwise the .chr and .nam files for the tile size, plus the .pal file when there is a palette, all little-endian. |
| Output.NamReadBack | snes-tile-tool.py:250-261 | Reading the .nam file back gives each entry's renumbered index, palette and flags. |
| Output.CharAt | snes-tile-tool.py:226 | Character m of a .chr file is its 8 * bpp bytes from m * 8 * bpp. |
| Output.CharIsPacked | snes-tile-tool.py:224-226 | Character m of the packed characters is character m packed. |
| Output.Chr8ReadBack | snes-tile-tool.py:224-226 | Character m of an 8x8 .chr file unpacks to tile m. |
| Output.Chr16ReadBack | snes-tile-tool.py:227-247 | Character Renumber(idx) + 16 * half + qx of a 16x16 .chr file unpacks to quadrant (qx, half) of tile idx. |
| Output.QuadrantFits | snes-tile-tool.py:194-200 | A quadrant of a tile whose pixels are below 2^bpp has pixels below 2^bpp. |
| Tool.Convert | snes-tile-tool.py:294-300 | The result is what process returns for this image and these options (Process.ProcessResult): the checks' Error, or the deduplicated tiles, tile map, warnings, palette words and mode 7 flag of its cells. An Error from the checks writes nothing. Otherwise process's tiles have the lengths writeOutput needs. The files are written exactly when writeOutput's asserts hold on process's results, and are then OutputFiles. |
| Tool.EntriesWritable | snes-tile-tool.py:147-150 | The .nam asserts on process's tile map fail only on an index above 1023 once renumbered. The .mo7 assert fails only on one above 255. |

## Left out

- Image decoding with PIL (`Image.open`, `crop`, `tostring`,
  `convert("RGB")`, `pixels[i, j]`, lines 23-24, 49, 86, 92) is left out.
  The input is an `Image` value with both pixel views as rows, and
  `Process.CropRows` stands in for the crop. The mode tests of lines 63
  and 65 are the booleans `paletted` and `rgbPalette`. The palette is its
  raw bytes.
- File output (`open`, `f.write`) and the output prefix are left out.
  `Output.Files` holds the bytes of each file.
- `argparse` and `main` (lines 270-302) are left out: `Options` takes
  their place. `Tool.Convert` models only the `try` block. Printing the
  error message is not modelled.
- `warn` (lines 16-17) prints nothing here. Its two uses are flags in
  `Process.Processed`: one mixed-palette flag per cell, and the mode 7
  mirror flag. The message text and the cell coordinates of line 109 are
  not modelled; the flag's position gives the cell.
- The asserts of `writeOutput` (lines 216, 256-258, 266) end the
  program with an AssertionError that `main` does not catch. The model
  returns None for them. The bytes written to a file before the failing
  word are not modelled.
- The asserts of `packPlane` (line 172) and `crop16x16` (line 195) are the
  precondition `Output.TilesFit`. `Tool.Convert` proves it holds for
  process's tiles.
- The asserts of lines 37, 44 and 94 are preconditions or proved facts
  of the cell shapes.
- `unreachable()` (line 248) is left out: `TileSize` has only its two
  values.
- Python 2 byte strings are sequences of `Byte`; `ord` and `chr` are the
  identity on them.
- Mirror.MirrorV: its contract states the rows reversed, not a formula for
  each byte. Its involution and its commuting with MirrorH are lemmas.
- Process.Process: the mode 7 warning "ignoring -Om" (line 55) is printed
  before the checks of lines 58-71 can raise an Error. The model reports
  it as `mirrorsIgnored` only with a successful result, so on those error
  paths the warning is not modelled.
- Chr.Quadrant: its own contract states only the length. Its pixels are
  stated by Chr.QuadrantPixels.
- TileMap.DecodeMapWord: its own contract states only field bounds. The
  round trip is TileMap.MapWordRoundTrip.
