/** main without the command line: process on the decoded image, then
    writeOutput on its results for the same options. */
module Tool {

  import opened Types
  import opened TileMap
  import opened Mode7
  import opened Dedup
  import opened Extract
  import opened Config
  import opened Process
  import opened Output

  /** The results of process on the image, and the files written from
      them when process raised no Error and no assert of writeOutput
      failed. */
  method Convert(img: Image, o: Options) returns (r: Result<Processed>, files: Option<Files>)
    requires WellFormed(img)
    ensures ProcessResult(img, o, r)
    ensures var v := Validate(o, img.paletted, img.rgbPalette, img.width, img.height);
      (v.Err? ==> r == Err(v.error) && files.None?) && (v.Ok? ==> r.Ok?)
    ensures r.Ok? ==>
      && TilesFit(r.value.rawTiles, o.size)
      && (files.Some? <==> Writable(r.value.tilemap, r.value.palette, o.size, o.mode7))
      && (files.Some? ==>
            files.value == OutputFiles(r.value.rawTiles, r.value.tilemap, r.value.palette,
                                       o.bpp, o.size, o.mode7))
  {
    r := Process.Process(img, o);
    files := None;
    if r.Ok? {
      var v := Validate(o, img.paletted, img.rgbPalette, img.width, img.height);
      ProcessedTiles(img, o.directSelect, o.bpp, o.size.Side(), o.dupes, v.value.opts.mirrors);
      files := WriteOutput(r.value.rawTiles, r.value.tilemap, r.value.palette, o.bpp, o.size, o.mode7);
    }
  }

  /** Palette numbers are below 8 and flags below 4, so the asserts of the
      .nam and .mo7 loops fail on process's tile map only for a tile index
      that does not fit: above 1023 once renumbered, or above 255. */
  lemma EntriesWritable(cells: seq<Tile>, refs: seq<Ref>, directSelect: bool, bpp: Bpp, size: TileSize)
    requires |refs| == |cells| && forall k :: 0 <= k < |refs| ==> refs[k].flip < 4
    ensures var tilemap := Entries(cells, refs, directSelect, bpp);
      && (Encodable(tilemap, size) <==> forall k :: 0 <= k < |refs| ==> MapIndex(refs[k].index, size) <= 1023)
      && (ByteIndices(tilemap) <==> forall k :: 0 <= k < |refs| ==> refs[k].index <= 255)
  {
    var tilemap := Entries(cells, refs, directSelect, bpp);
    forall k | 0 <= k < |refs|
      ensures tilemap[k].index == refs[k].index && tilemap[k].palette <= 7 && tilemap[k].flip <= 3
    {
      if !directSelect {
        assert PaletteNumber(cells[k], bpp) < 8;
      }
    }
  }
}
