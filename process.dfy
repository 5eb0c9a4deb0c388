/** process: cuts the decoded image into tiles in row-major order, resolves
    each tile's palette number, masks it, deduplicates it against the tile
    store and appends its tile-map entry; then builds the palette. */
module Process {

  import opened Types
  import opened Bits
  import opened Seqs
  import opened Mirror
  import opened Color
  import opened Extract
  import opened Dedup
  import opened Config

  /** The decoded input image: `indices` holds each pixel's byte (the
      paletted image's raw data), `colors` each pixel's RGB value, both as
      rows top to bottom. `paletted` and `rgbPalette` are the image-mode and
      palette-mode tests; `palette` is the raw palette bytes r, g, b, ... */
  datatype Image = Image(
    width: nat,
    height: nat,
    indices: seq<seq<Byte>>,
    colors: seq<seq<Rgb>>,
    paletted: bool,
    rgbPalette: bool,
    palette: seq<Byte>)

  /** Both pixel views have `height` rows of `width` pixels. */
  ghost predicate WellFormed(img: Image)
  {
    && |img.indices| == img.height && Uniform(img.indices, img.width)
    && |img.colors| == img.height && Uniform(img.colors, img.width)
  }

  /** What process returns: rawTiles, tilemap and snesPalette, plus one
      "more than one palette" warning flag per cell and the "mirror tiles
      can't be optimized in mode 7" warning flag. */
  datatype Processed = Processed(
    rawTiles: seq<Tile>,
    tilemap: seq<Entry>,
    palette: Option<seq<Word>>,
    conflicts: seq<bool>,
    mirrorsIgnored: bool)

  /** The side x side block of rows whose top-left pixel is (x, y): the
      crop box (x, y, x + side, y + side). */
  function CropRows<T>(rows: seq<seq<T>>, x: nat, y: nat, side: nat): (r: seq<seq<T>>)
    requires y + side <= |rows|
    requires forall b :: y <= b < y + side ==> x + side <= |rows[b]|
    ensures |r| == side && Uniform(r, side)
    ensures forall b, a :: 0 <= b < side && 0 <= a < side ==> r[b][a] == rows[y + b][x + a]
  {
    seq(side, b requires 0 <= b < side => rows[y + b][x .. x + side])
  }

  /** Cell i of a row of n cells of `side` pixels ends inside the row. */
  lemma CellInside(i: nat, n: nat, side: nat, total: nat)
    requires side > 0 && total % side == 0 && n == total / side && i < n
    ensures i * side + side <= total
  {
    MulMono(i + 1, n, side);
  }

  lemma SquareRows(side: nat)
    requires side == 8 || side == 16
    ensures (side * side) % side == 0
  {
  }

  /** The raw tile of cell (i, j): the crop's bytes, row-major, or with
      direct select their rgb8 bytes. */
  function RawCell(img: Image, directSelect: bool, side: nat, i: nat, j: nat): (t: Tile)
    requires WellFormed(img) && side > 0
    requires img.width % side == 0 && img.height % side == 0
    requires i < img.width / side && j < img.height / side
    ensures |t| == side * side
  {
    CellInside(i, img.width / side, side, img.width);
    CellInside(j, img.height / side, side, img.height);
    var x, y := i * side, j * side;
    if directSelect then
      var block := CropRows(img.colors, x, y, side);
      FlattenLength(block, side);
      Quantized(Flatten(block))
    else
      var block := CropRows(img.indices, x, y, side);
      FlattenLength(block, side);
      Flatten(block)
  }

  /** The raw tiles, one row of cells after another. */
  function CellGrid(img: Image, directSelect: bool, side: nat): (g: seq<seq<Tile>>)
    requires WellFormed(img) && side > 0
    requires img.width % side == 0 && img.height % side == 0
    ensures |g| == img.height / side && Uniform(g, img.width / side)
    ensures forall j, i :: 0 <= j < |g| && 0 <= i < img.width / side ==>
      g[j][i] == RawCell(img, directSelect, side, i, j)
  {
    var mapW, mapH := img.width / side, img.height / side;
    seq(mapH, j requires 0 <= j < mapH =>
      seq(mapW, i requires 0 <= i < mapW => RawCell(img, directSelect, side, i, j)))
  }

  /** The raw tiles in the order process visits the cells. */
  function Cells(img: Image, directSelect: bool, side: nat): (c: seq<Tile>)
    requires WellFormed(img) && (side == 8 || side == 16)
    requires img.width % side == 0 && img.height % side == 0
    ensures |c| == (img.height / side) * (img.width / side)
    ensures forall k :: 0 <= k < |c| ==> |c[k]| == side * side && |c[k]| % side == 0
  {
    var g := CellGrid(img, directSelect, side);
    FlattenLength(g, img.width / side);
    SquareRows(side);
    assert forall k :: 0 <= k < |Flatten(g)| ==> Flatten(g)[k] in Flatten(g);
    CellsOfGrid(g, img.width / side, side * side);
    Flatten(g)
  }

  /** Every tile of the flattened grid is one of the grid's tiles. */
  lemma {:induction false} CellsOfGrid(g: seq<seq<Tile>>, w: nat, len: nat)
    requires forall j, i :: 0 <= j < |g| && 0 <= i < |g[j]| ==> |g[j][i]| == len
    ensures forall k :: 0 <= k < |Flatten(g)| ==> |Flatten(g)[k]| == len
  {
    if g != [] {
      CellsOfGrid(g[1..], w, len);
      assert forall k :: 0 <= k < |g[0]| ==> Flatten(g)[k] == g[0][k];
      assert forall k :: |g[0]| <= k < |Flatten(g)| ==> Flatten(g)[k] == Flatten(g[1..])[k - |g[0]|];
    }
  }

  /** Masked applied to every tile. */
  function MaskAll(ts: seq<Tile>, bpp: Bpp): (r: seq<Tile>)
    ensures |r| == |ts|
    ensures forall k :: 0 <= k < |ts| ==> r[k] == Masked(ts[k], bpp) && |r[k]| == |ts[k]|
  {
    seq(|ts|, k requires 0 <= k < |ts| => Masked(ts[k], bpp))
  }

  /** The tile-map entries for the cells and their references: the
      reference's index and flags with the raw cell's palette number. */
  function Entries(cells: seq<Tile>, refs: seq<Ref>, directSelect: bool, bpp: Bpp): (e: seq<Entry>)
    requires |refs| == |cells|
  {
    seq(|cells|, k requires 0 <= k < |cells| =>
      Entry(refs[k].index, if directSelect then 0 else PaletteNumber(cells[k], bpp), refs[k].flip))
  }

  /** The "more than one palette" warning of each cell. */
  ghost function Warnings(cells: seq<Tile>, directSelect: bool, bpp: Bpp): seq<bool>
  {
    seq(|cells|, k requires 0 <= k < |cells| => !directSelect && MixedPalettes(cells[k], bpp))
  }

  /** The state of process after the raw tiles `cells`: the store and refs
      are those of deduplicating the masked cells, the entries and warnings
      those of the raw cells. */
  ghost predicate Progress(cells: seq<Tile>, bpp: Bpp, side: nat, dupes: bool, mirrors: bool,
                           directSelect: bool, rawTiles: seq<Tile>, index: map<Tile, nat>,
                           refs: seq<Ref>, tilemap: seq<Entry>, conflicts: seq<bool>)
  {
    && side > 0
    && (forall k :: 0 <= k < |cells| ==> |cells[k]| % side == 0)
    && DedupAll(MaskAll(cells, bpp), side, dupes, mirrors) == (Store(rawTiles, index), refs)
    && |refs| == |cells|
    && tilemap == Entries(cells, refs, directSelect, bpp)
    && conflicts == Warnings(cells, directSelect, bpp)
  }

  lemma ProgressStep(cells: seq<Tile>, c: Tile, bpp: Bpp, side: nat, dupes: bool, mirrors: bool,
                     directSelect: bool, rawTiles: seq<Tile>, index: map<Tile, nat>,
                     refs: seq<Ref>, tilemap: seq<Entry>, conflicts: seq<bool>)
    requires Progress(cells, bpp, side, dupes, mirrors, directSelect, rawTiles, index, refs, tilemap, conflicts)
    requires |c| % side == 0
    ensures var (s, ref) := Place(Store(rawTiles, index), Masked(c, bpp), |cells|, side, dupes, mirrors);
      Progress(cells + [c], bpp, side, dupes, mirrors, directSelect, s.tiles, s.index, refs + [ref],
               tilemap + [Entry(ref.index, if directSelect then 0 else PaletteNumber(c, bpp), ref.flip)],
               conflicts + [!directSelect && MixedPalettes(c, bpp)])
  {
    MaskAllSnoc(cells, c, bpp);
    DedupAllSnoc(MaskAll(cells, bpp), Masked(c, bpp), side, dupes, mirrors);
    var (s, ref) := Place(Store(rawTiles, index), Masked(c, bpp), |cells|, side, dupes, mirrors);
    EntriesSnoc(cells, refs, c, ref, directSelect, bpp);
    WarningsSnoc(cells, c, directSelect, bpp);
  }

  lemma MaskAllSnoc(cells: seq<Tile>, c: Tile, bpp: Bpp)
    ensures MaskAll(cells + [c], bpp) == MaskAll(cells, bpp) + [Masked(c, bpp)]
  {
    assert forall k :: 0 <= k < |cells| ==> (cells + [c])[k] == cells[k];
  }

  lemma EntriesSnoc(cells: seq<Tile>, refs: seq<Ref>, c: Tile, ref: Ref, directSelect: bool, bpp: Bpp)
    requires |refs| == |cells|
    ensures Entries(cells + [c], refs + [ref], directSelect, bpp) ==
      Entries(cells, refs, directSelect, bpp) +
      [Entry(ref.index, if directSelect then 0 else PaletteNumber(c, bpp), ref.flip)]
  {
    assert forall k :: 0 <= k < |cells| ==> (cells + [c])[k] == cells[k] && (refs + [ref])[k] == refs[k];
  }

  lemma WarningsSnoc(cells: seq<Tile>, c: Tile, directSelect: bool, bpp: Bpp)
    ensures Warnings(cells + [c], directSelect, bpp) ==
      Warnings(cells, directSelect, bpp) + [!directSelect && MixedPalettes(c, bpp)]
  {
    assert forall k :: 0 <= k < |cells| ==> (cells + [c])[k] == cells[k];
  }

  lemma NextRow(j: nat, mapW: nat)
    ensures j * mapW + mapW == (j + 1) * mapW
  {
  }

  /** One cell of the loop: lines 84-150. `done` are the raw tiles of the
      cells before (i, j). */
  method ProcessCell(img: Image, o: Options, mirrors: bool, side: nat, i: nat, j: nat,
                     ghost done: seq<Tile>, ghost refs: seq<Ref>,
                     rawTiles: seq<Tile>, index: map<Tile, nat>, tilemap: seq<Entry>, conflicts: seq<bool>)
    returns (ghost done': seq<Tile>, ghost refs': seq<Ref>,
             rawTiles': seq<Tile>, index': map<Tile, nat>, tilemap': seq<Entry>, conflicts': seq<bool>)
    requires WellFormed(img) && side == o.size.Side()
    requires img.width % side == 0 && img.height % side == 0
    requires i < img.width / side && j < img.height / side
    requires done <= Cells(img, o.directSelect, side) && |done| == j * (img.width / side) + i
    requires Progress(done, o.bpp, side, o.dupes, mirrors, o.directSelect,
                      rawTiles, index, refs, tilemap, conflicts)
    ensures done' <= Cells(img, o.directSelect, side) && |done'| == |done| + 1
    ensures Progress(done', o.bpp, side, o.dupes, mirrors, o.directSelect,
                     rawTiles', index', refs', tilemap', conflicts')
  {
    var mapW := img.width / side;
    var rawTile, paletteNum, warned := ExtractCell(img, o.directSelect, o.bpp, side, i, j);
    ghost var cells := Cells(img, o.directSelect, side);
    ghost var n := |done|;
    FlattenIndex(CellGrid(img, o.directSelect, side), mapW, j, i);
    ghost var c := cells[n];
    PrefixExtend(done, cells);
    assert c == RawCell(img, o.directSelect, side, i, j);
    ProgressStep(done, c, o.bpp, side, o.dupes, mirrors, o.directSelect,
                 rawTiles, index, refs, tilemap, conflicts);
    done' := done + [c];
    var tileIndex, flipFlags;
    rawTiles', index', tileIndex, flipFlags := Insert(rawTiles, index, rawTile, j * mapW + i,
                                                      side, o.dupes, mirrors);
    refs' := refs + [Ref(tileIndex, flipFlags)];
    tilemap' := tilemap + [Entry(tileIndex, paletteNum, flipFlags)];
    conflicts' := conflicts + [warned];
  }

  /** Lines 84-118 for cell (i, j): crop, rgb8 or raw bytes, the palette
      loop, and masking. */
  method ExtractCell(img: Image, directSelect: bool, bpp: Bpp, side: nat, i: nat, j: nat)
    returns (rawTile: Tile, paletteNum: nat, warned: bool)
    requires WellFormed(img) && side > 0
    requires img.width % side == 0 && img.height % side == 0
    requires i < img.width / side && j < img.height / side
    ensures rawTile == Masked(RawCell(img, directSelect, side, i, j), bpp)
    ensures paletteNum == if directSelect then 0 else PaletteNumber(RawCell(img, directSelect, side, i, j), bpp)
    ensures warned == (!directSelect && MixedPalettes(RawCell(img, directSelect, side, i, j), bpp))
  {
    CellInside(i, img.width / side, side, img.width);
    CellInside(j, img.height / side, side, img.height);
    var x := i * side;
    var y := j * side;
    if directSelect {
      rawTile := Rgb8(CropRows(img.colors, x, y, side), side);
      paletteNum, warned := 0, false;
    } else {
      rawTile := Flatten(CropRows(img.indices, x, y, side));
      paletteNum, warned := ResolvePalette(rawTile, bpp);
    }
    rawTile := Masked(rawTile, bpp);
  }

  /** Lines 119-145: the mirrored variants, the lookup, and the append on a
      miss (or always, without duplicate optimisation). */
  method Insert(rawTiles: seq<Tile>, index: map<Tile, nat>, rawTile: Tile, pos: nat,
                side: nat, dupes: bool, mirrors: bool)
    returns (rawTiles': seq<Tile>, index': map<Tile, nat>, tileIndex: nat, flipFlags: nat)
    requires side > 0 && |rawTile| % side == 0
    ensures (Store(rawTiles', index'), Ref(tileIndex, flipFlags)) ==
            Place(Store(rawTiles, index), rawTile, pos, side, dupes, mirrors)
  {
    var rawTileH := MirrorH(rawTile, side);
    LengthsMirrored(rawTile, side);
    var rawTileV := MirrorV(rawTile, side);
    var rawTileHV := MirrorV(rawTileH, side);
    rawTiles', index', flipFlags := rawTiles, index, 0;
    if dupes {
      var canOptimize;
      canOptimize, tileIndex, flipFlags := Lookup(index, rawTile, side, mirrors, rawTileH, rawTileV, rawTileHV);
      if !canOptimize {
        tileIndex := |rawTiles|;
        index' := index[rawTile := tileIndex];
        rawTiles' := rawTiles + [rawTile];
      }
    } else {
      rawTiles' := rawTiles + [rawTile];
      tileIndex := pos;
    }
  }

  /** The nested cell loops of process: each cell's raw tile is extracted,
      deduplicated and given its tile-map entry. */
  method CutTiles(img: Image, o: Options, mirrors: bool)
    returns (rawTiles: seq<Tile>, tilemap: seq<Entry>, conflicts: seq<bool>)
    requires WellFormed(img)
    requires img.width % o.size.Side() == 0 && img.height % o.size.Side() == 0
    ensures var side := o.size.Side();
      var cells := Cells(img, o.directSelect, side);
      var (s, refs) := DedupAll(MaskAll(cells, o.bpp), side, o.dupes, mirrors);
      && rawTiles == s.tiles
      && tilemap == Entries(cells, refs, o.directSelect, o.bpp)
      && conflicts == Warnings(cells, o.directSelect, o.bpp)
  {
    var side := o.size.Side();
    var mapW := img.width / side;
    var mapH := img.height / side;
    ghost var cells := Cells(img, o.directSelect, side);
    rawTiles, tilemap, conflicts := [], [], [];
    var index: map<Tile, nat> := map[];
    ghost var done: seq<Tile> := [];
    ghost var refs: seq<Ref> := [];
    var j := 0;
    while j < mapH
      invariant 0 <= j <= mapH
      invariant done <= cells && |done| == j * mapW
      invariant Progress(done, o.bpp, side, o.dupes, mirrors, o.directSelect,
                         rawTiles, index, refs, tilemap, conflicts)
    {
      done, refs, rawTiles, index, tilemap, conflicts :=
        ProcessRow(img, o, mirrors, side, j, done, refs, rawTiles, index, tilemap, conflicts);
      j := j + 1;
    }
    assert done == cells;
  }

  /** One row of cells: the inner loop over i. */
  method ProcessRow(img: Image, o: Options, mirrors: bool, side: nat, j: nat,
                    ghost done: seq<Tile>, ghost refs: seq<Ref>,
                    rawTiles: seq<Tile>, index: map<Tile, nat>, tilemap: seq<Entry>, conflicts: seq<bool>)
    returns (ghost done': seq<Tile>, ghost refs': seq<Ref>,
             rawTiles': seq<Tile>, index': map<Tile, nat>, tilemap': seq<Entry>, conflicts': seq<bool>)
    requires WellFormed(img) && side == o.size.Side()
    requires img.width % side == 0 && img.height % side == 0
    requires j < img.height / side
    requires done <= Cells(img, o.directSelect, side) && |done| == j * (img.width / side)
    requires Progress(done, o.bpp, side, o.dupes, mirrors, o.directSelect,
                      rawTiles, index, refs, tilemap, conflicts)
    ensures done' <= Cells(img, o.directSelect, side) && |done'| == (j + 1) * (img.width / side)
    ensures Progress(done', o.bpp, side, o.dupes, mirrors, o.directSelect,
                     rawTiles', index', refs', tilemap', conflicts')
  {
    var mapW := img.width / side;
    done', refs', rawTiles', index', tilemap', conflicts' := done, refs, rawTiles, index, tilemap, conflicts;
    var i := 0;
    while i < mapW
      invariant 0 <= i <= mapW
      invariant done' <= Cells(img, o.directSelect, side) && |done'| == j * mapW + i
      invariant Progress(done', o.bpp, side, o.dupes, mirrors, o.directSelect,
                         rawTiles', index', refs', tilemap', conflicts')
    {
      done', refs', rawTiles', index', tilemap', conflicts' :=
        ProcessCell(img, o, mirrors, side, i, j, done', refs', rawTiles', index', tilemap', conflicts');
      i := i + 1;
    }
    NextRow(j, mapW);
  }

  /** What the tiles process returns mean: every stored tile is a masked
      cell of side x side pixels below 2^bpp, and every cell's entry names a
      stored tile that, flipped by the entry's flags, is the masked cell. */
  lemma ProcessedTiles(img: Image, directSelect: bool, bpp: Bpp, side: nat, dupes: bool, mirrors: bool)
    requires WellFormed(img) && (side == 8 || side == 16)
    requires img.width % side == 0 && img.height % side == 0
    ensures SquareCells(Cells(img, directSelect, side), side)
    ensures StoreFits(Cells(img, directSelect, side), bpp, side, dupes, mirrors)
  {
    MaskedStore(Cells(img, directSelect, side), bpp, side, dupes, mirrors);
  }

  /** Every cell has side x side pixels. */
  ghost predicate SquareCells(cells: seq<Tile>, side: nat)
  {
    side > 0 && forall k :: 0 <= k < |cells| ==> |cells[k]| == side * side && |cells[k]| % side == 0
  }

  /** The store after deduplicating the masked cells holds side x side
      tiles with pixels below 2^bpp, and cell k's reference flips its
      stored tile back into the masked cell. */
  ghost predicate StoreFits(cells: seq<Tile>, bpp: Bpp, side: nat, dupes: bool, mirrors: bool)
    requires SquareCells(cells, side)
  {
    var (s, refs) := DedupAll(MaskAll(cells, bpp), side, dupes, mirrors);
    && (forall p :: 0 <= p < |s.tiles| ==>
          |s.tiles[p]| == side * side && forall q :: 0 <= q < |s.tiles[p]| ==> s.tiles[p][q] < Pow2(bpp))
    && (forall k :: 0 <= k < |cells| ==>
          refs[k].index < |s.tiles| && refs[k].flip < 4 &&
          Flipped(s.tiles[refs[k].index], side, refs[k].flip) == Masked(cells[k], bpp))
  }

  /** ProcessedTiles for any cells of side x side pixels. */
  lemma MaskedStore(cells: seq<Tile>, bpp: Bpp, side: nat, dupes: bool, mirrors: bool)
    requires SquareCells(cells, side)
    ensures StoreFits(cells, bpp, side, dupes, mirrors)
  {
    var ts := MaskAll(cells, bpp);
    DedupAllProperties(ts, side, dupes, mirrors);
    StoredMasked(cells, ts, DedupAll(ts, side, dupes, mirrors).0.tiles, bpp, side);
  }

  /** Tiles drawn from the masked cells are masked cells. */
  lemma StoredMasked(cells: seq<Tile>, ts: seq<Tile>, tiles: seq<Tile>, bpp: Bpp, side: nat)
    requires forall k :: 0 <= k < |cells| ==> |cells[k]| == side * side
    requires ts == MaskAll(cells, bpp)
    requires forall p :: 0 <= p < |tiles| ==> tiles[p] in ts
    ensures forall p :: 0 <= p < |tiles| ==>
      |tiles[p]| == side * side && forall q :: 0 <= q < |tiles[p]| ==> tiles[p][q] < Pow2(bpp)
  {
    forall p | 0 <= p < |tiles|
      ensures |tiles[p]| == side * side && forall q :: 0 <= q < |tiles[p]| ==> tiles[p][q] < Pow2(bpp)
    {
      assert tiles[p] in ts;
      var k :| 0 <= k < |ts| && ts[k] == tiles[p];
    }
  }

  /** What process returns for the image and options: the checks' Error,
      or the tiles, tile map and warnings of deduplicating the image's
      cells, the palette words unless direct select is on, and the mode 7
      mirror warning. */
  ghost predicate ProcessResult(img: Image, o: Options, r: Result<Processed>)
    requires WellFormed(img)
  {
    var v := Validate(o, img.paletted, img.rgbPalette, img.width, img.height);
    && (v.Err? ==> r == Err(v.error))
    && (v.Ok? ==>
        r.Ok? &&
        var side := o.size.Side();
        var cells := Cells(img, o.directSelect, side);
        var (s, refs) := DedupAll(MaskAll(cells, o.bpp), side, o.dupes, v.value.opts.mirrors);
        && r.value.rawTiles == s.tiles
        && |r.value.tilemap| == |cells| && |r.value.conflicts| == |cells|
        && (forall k :: 0 <= k < |cells| ==>
              r.value.tilemap[k] == Entry(refs[k].index,
                                          if o.directSelect then 0 else PaletteNumber(cells[k], o.bpp),
                                          refs[k].flip))
        && (forall k :: 0 <= k < |cells| ==>
              r.value.conflicts[k] == (!o.directSelect && MixedPalettes(cells[k], o.bpp)))
        && r.value.palette == (if o.directSelect then None else Some(PaletteWords(img.palette, o.bpp)))
        && r.value.mirrorsIgnored == v.value.mirrorsIgnored)
  }

  /** process on a decoded image. */
  method Process(img: Image, o: Options) returns (r: Result<Processed>)
    requires WellFormed(img)
    ensures ProcessResult(img, o, r)
  {
    var v := Validate(o, img.paletted, img.rgbPalette, img.width, img.height);
    if v.Err? {
      return Err(v.error);
    }
    var rawTiles, tilemap, conflicts := CutTiles(img, o, v.value.opts.mirrors);
    var snesPalette: Option<seq<Word>> := None;
    if !o.directSelect {
      var words := BuildPalette(img.palette, o.bpp);
      snesPalette := Some(words);
    }
    r := Ok(Processed(rawTiles, tilemap, snesPalette, conflicts, v.value.mirrorsIgnored));
  }
}
