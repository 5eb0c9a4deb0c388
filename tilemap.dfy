/** The tile-map (.nam) words: 10-bit character index, 3-bit palette and the
    two flip bits, with 16x16 tile indices renumbered to 8x8 character
    indices. */
module TileMap {

  import opened Types
  import opened Bits

  /** `index // 8 * 32 + index % 8 * 2`: the 8x8 character of the top-left
      quadrant of 16x16 tile `index` in the character layout of Chr. */
  function Renumber(index: nat): (r: nat)
    ensures index / 8 * 32 <= r && r + 17 < index / 8 * 32 + 32
  {
    index / 8 * 32 + index % 8 * 2
  }

  /** Renumbered indices fit the 10-bit field exactly for the first 256
      tiles. */
  lemma RenumberFits(index: nat)
    ensures Renumber(index) <= 1023 <==> index <= 255
  {
    if index <= 255 {
      assert index / 8 <= 31;
    } else {
      assert index / 8 >= 32;
      MulMono(32, index / 8, 32);
    }
  }

  /** The four characters Renumber(i) + 0, 1, 16, 17 of different tiles
      never coincide, and those of one tile are distinct. */
  lemma QuadrantsDisjoint(a: nat, b: nat, da: nat, db: nat)
    requires da == 0 || da == 1 || da == 16 || da == 17
    requires db == 0 || db == 1 || db == 16 || db == 17
    requires Renumber(a) + da == Renumber(b) + db
    ensures a == b && da == db
  {
    var w := Renumber(a) + da;
    DivModUnique(w, 32, a / 8, a % 8 * 2 + da);
    DivModUnique(w, 32, b / 8, b % 8 * 2 + db);
  }

  /** The index stored in the map for the tile size. */
  function MapIndex(index: nat, size: TileSize): nat
  {
    if size == Size16x16 then Renumber(index) else index
  }

  /** `flipFlags << 14 | paletteNum << 10 | index`; the fields do not
      overlap, so the `|` is a `+`. Bit 13 (priority) stays clear. */
  function MapWord(index: nat, palette: nat, flip: nat): (w: Word)
    requires index <= 1023 && palette <= 7 && flip <= 3
    ensures w % 1024 == index
    ensures (w / 1024) % 8 == palette
    ensures w / 16384 == flip
    ensures (w / 8192) % 2 == 0
  {
    var w := flip * 16384 + palette * 1024 + index;
    DivModUnique(w, 1024, flip * 16 + palette, index);
    DivModUnique(flip * 16 + palette, 8, flip * 2, palette);
    DivModUnique(w, 16384, flip, palette * 1024 + index);
    DivModUnique(w, 8192, flip * 2, palette * 1024 + index);
    w
  }

  /** The three fields of a map word. */
  function DecodeMapWord(w: Word): (e: Entry)
    ensures e.index <= 1023 && e.palette <= 7 && e.flip <= 3
  {
    Entry(w % 1024, (w / 1024) % 8, w / 16384)
  }

  lemma MapWordRoundTrip(index: nat, palette: nat, flip: nat)
    requires index <= 1023 && palette <= 7 && flip <= 3
    ensures DecodeMapWord(MapWord(index, palette, flip)) == Entry(index, palette, flip)
  {
  }

  /** Every entry of the map fits its fields (the asserts of the .nam loop). */
  ghost predicate Encodable(tilemap: seq<Entry>, size: TileSize)
  {
    forall k :: 0 <= k < |tilemap| ==>
      MapIndex(tilemap[k].index, size) <= 1023 && tilemap[k].palette <= 7 && tilemap[k].flip <= 3
  }

  /** The .nam words: entry k's word holds its (renumbered) index, its
      palette and its flags. */
  function MapWords(tilemap: seq<Entry>, size: TileSize): (words: seq<Word>)
    requires Encodable(tilemap, size)
    ensures |words| == |tilemap|
    ensures forall k :: 0 <= k < |tilemap| ==>
      DecodeMapWord(words[k]) ==
      Entry(MapIndex(tilemap[k].index, size), tilemap[k].palette, tilemap[k].flip)
  {
    seq(|tilemap|, k requires 0 <= k < |tilemap| =>
      (MapWordRoundTrip(MapIndex(tilemap[k].index, size), tilemap[k].palette, tilemap[k].flip);
       MapWord(MapIndex(tilemap[k].index, size), tilemap[k].palette, tilemap[k].flip)))
  }

  /** The .nam loop: one word per tile-map entry; None when one of the
      loop's asserts stops it at an entry that does not fit its fields. */
  method WriteMap(tilemap: seq<Entry>, size: TileSize) returns (r: Option<seq<Word>>)
    ensures r.Some? <==> Encodable(tilemap, size)
    ensures r.Some? ==> r.value == MapWords(tilemap, size)
  {
    var words := [];
    for k := 0 to |tilemap|
      invariant |words| == k
      invariant forall m :: 0 <= m < k ==>
        MapIndex(tilemap[m].index, size) <= 1023 && tilemap[m].palette <= 7 && tilemap[m].flip <= 3
      invariant forall m :: 0 <= m < k ==>
        words[m] == MapWord(MapIndex(tilemap[m].index, size), tilemap[m].palette, tilemap[m].flip)
    {
      var e := tilemap[k];
      var index := e.index;
      if size == Size16x16 {
        index := index / 8 * 32 + index % 8 * 2;
      }
      if !(index <= 1023 && e.palette <= 7 && e.flip <= 3) {
        return None;
      }
      var data := MapWord(index, e.palette, e.flip);
      words := words + [data];
    }
    return Some(words);
  }
}
