/** The character (.chr) data: every tile packed in planar format. 16x16
    tiles are split into four 8x8 characters; per group of 8 tiles the top
    halves (left, right) come first, then the bottom halves, so that the
    characters of 16x16 tile i start at TileMap.Renumber(i). */
module Chr {

  import opened Types
  import opened Bits
  import opened Seqs
  import opened Planar
  import opened TileMap

  /** The rows y0 .. y1 - 1, columns x0 .. x1 - 1, of a 16 x 16 tile. */
  function RectRows(t: Tile, x0: nat, y0: nat, x1: nat, y1: nat): (r: seq<seq<Byte>>)
    requires |t| == 256 && x0 <= x1 <= 16 && y0 <= y1 <= 16
    ensures |r| == y1 - y0 && Uniform(r, x1 - x0)
    ensures forall b, a :: 0 <= b < y1 - y0 && 0 <= a < x1 - x0 ==> r[b][a] == t[16 * (y0 + b) + x0 + a]
  {
    seq(y1 - y0, b requires 0 <= b < y1 - y0 => t[16 * (y0 + b) + x0 .. 16 * (y0 + b) + x1])
  }

  /** crop16x16: the rectangle's bytes, row by row. */
  method Crop16(t: Tile, x0: nat, y0: nat, x1: nat, y1: nat) returns (result: Tile)
    requires |t| == 256 && x0 <= x1 <= 16 && y0 <= y1 <= 16
    ensures result == Flatten(RectRows(t, x0, y0, x1, y1))
  {
    result := [];
    var j := y0;
    while j < y1
      invariant y0 <= j <= y1
      invariant result == Flatten(RectRows(t, x0, y0, x1, j))
    {
      RectRowsSnoc(t, x0, y0, x1, j);
      result := CropRow(result, t, j, x0, x1);
      j := j + 1;
    }
  }

  /** One more row of the rectangle appends that row's bytes. */
  lemma RectRowsSnoc(t: Tile, x0: nat, y0: nat, x1: nat, j: nat)
    requires |t| == 256 && x0 <= x1 <= 16 && y0 <= j < 16
    ensures Flatten(RectRows(t, x0, y0, x1, j + 1)) ==
            Flatten(RectRows(t, x0, y0, x1, j)) + t[16 * j + x0 .. 16 * j + x1]
  {
    var rows := RectRows(t, x0, y0, x1, j);
    var row := t[16 * j + x0 .. 16 * j + x1];
    assert RectRows(t, x0, y0, x1, j + 1) == rows + [row];
    FlattenConcat(rows, [row]);
    assert Flatten([row]) == row + Flatten([]);
  }

  /** The inner loop of crop16x16: row j, columns x0 .. x1 - 1, appended. */
  method CropRow(acc: Tile, t: Tile, j: nat, x0: nat, x1: nat) returns (result: Tile)
    requires |t| == 256 && j < 16 && x0 <= x1 <= 16
    ensures result == acc + t[16 * j + x0 .. 16 * j + x1]
  {
    result := acc;
    var i := x0;
    while i < x1
      invariant x0 <= i <= x1
      invariant result == acc + t[16 * j + x0 .. 16 * j + i]
    {
      assert t[16 * j + x0 .. 16 * j + i + 1] == t[16 * j + x0 .. 16 * j + i] + [t[16 * j + i]];
      result := result + [t[16 * j + i]];
      i := i + 1;
    }
  }

  /** Quadrant (qx, qy) of a 16 x 16 tile as an 8 x 8 tile: qx 0 is the
      left half, qy 0 the top half. */
  function Quadrant(t: Tile, qx: nat, qy: nat): (q: Tile)
    requires |t| == 256 && qx < 2 && qy < 2
    ensures |q| == 64
  {
    var rows := RectRows(t, 8 * qx, 8 * qy, 8 * qx + 8, 8 * qy + 8);
    FlattenLength(rows, 8);
    Flatten(rows)
  }

  /** Pixel p of a quadrant is pixel (8 * qx + p % 8, 8 * qy + p / 8) of
      the 16 x 16 tile. */
  lemma QuadrantPixels(t: Tile, qx: nat, qy: nat)
    requires |t| == 256 && qx < 2 && qy < 2
    ensures forall p :: 0 <= p < 64 ==> Quadrant(t, qx, qy)[p] == t[16 * (8 * qy + p / 8) + 8 * qx + p % 8]
  {
    var rows := RectRows(t, 8 * qx, 8 * qy, 8 * qx + 8, 8 * qy + 8);
    FlattenLength(rows, 8);
    forall p | 0 <= p < 64
      ensures Flatten(rows)[p] == t[16 * (8 * qy + p / 8) + 8 * qx + p % 8]
    {
      FlattenIndex(rows, 8, p / 8, p % 8);
    }
  }

  /** A transparent 8 x 8 character: `chr(0) * 64`. */
  function Blank(): (z: Tile)
    ensures |z| == 64 && forall q :: 0 <= q < 64 ==> z[q] == 0
  {
    seq(64, q => 0)
  }

  /** Every block is an 8 x 8 character. */
  ghost predicate Chars(blocks: seq<Tile>)
  {
    forall m :: 0 <= m < |blocks| ==> |blocks[m]| == 64
  }

  /** All tiles are 16 x 16. */
  ghost predicate Tiles16(tiles: seq<Tile>)
  {
    forall k :: 0 <= k < |tiles| ==> |tiles[k]| == 256
  }

  /** The pair written for position idx and half `half` (0 top, 1 bottom):
      the tile's left and right quadrants, or two blank characters past the
      last tile. */
  function Pair(tiles: seq<Tile>, idx: nat, half: nat): (p: seq<Tile>)
    requires Tiles16(tiles) && half < 2
    ensures |p| == 2 && |p[0]| == 64 && |p[1]| == 64
  {
    if idx < |tiles| then [Quadrant(tiles[idx], 0, half), Quadrant(tiles[idx], 1, half)]
    else [Blank(), Blank()]
  }

  /** The number of pairs written for one half of the group starting at k:
      all 8, except that in the bottom half of the last group the missing
      tiles are skipped. */
  function HalfCount(n: nat, k: nat, skip: bool): (c: nat)
    ensures c <= 8
  {
    if skip && n < k + 8 then (if k <= n then n - k else 0) else 8
  }

  /** The pairs of one half (top or bottom) of the group of 8 tiles
      starting at k. */
  function HalfPairs(tiles: seq<Tile>, k: nat, half: nat, skip: bool): (ps: seq<seq<Tile>>)
    requires Tiles16(tiles) && half < 2
    ensures |ps| == HalfCount(|tiles|, k, skip)
    ensures forall i :: 0 <= i < |ps| ==> ps[i] == Pair(tiles, k + i, half)
  {
    var c := HalfCount(|tiles|, k, skip);
    seq(c, i requires 0 <= i < c => Pair(tiles, k + i, half))
  }

  /** Every element is a pair of 8 x 8 characters. */
  ghost predicate PairsShaped(pairs: seq<seq<Tile>>)
  {
    forall p :: 0 <= p < |pairs| ==> |pairs[p]| == 2 && |pairs[p][0]| == 64 && |pairs[p][1]| == 64
  }

  /** The characters of one half of a group. */
  function HalfRow(tiles: seq<Tile>, k: nat, half: nat, skip: bool): (h: seq<Tile>)
    requires Tiles16(tiles) && half < 2
  {
    Flatten(HalfPairs(tiles, k, half, skip))
  }

  /** The number of groups of 8 tiles. */
  function GroupCount(n: nat): (g: nat)
    ensures 8 * g >= n && (g > 0 ==> 8 * (g - 1) < n)
  {
    (n + 7) / 8
  }

  /** Group g: the top halves, then the bottom halves; `k // 8 ==
      (len(rawTiles) - 1) // 8` marks the last group. */
  function Group(tiles: seq<Tile>, g: nat): seq<Tile>
    requires Tiles16(tiles) && 8 * g < |tiles|
  {
    HalfRow(tiles, 8 * g, 0, false) + HalfRow(tiles, 8 * g, 1, g == (|tiles| - 1) / 8)
  }

  function Groups(tiles: seq<Tile>): (gs: seq<seq<Tile>>)
    requires Tiles16(tiles)
    ensures |gs| == GroupCount(|tiles|)
  {
    var count := GroupCount(|tiles|);
    seq(count, g requires 0 <= g < count => Group(tiles, g))
  }

  /** The 8 x 8 characters of a 16 x 16 CHR file, in the order written. */
  function Chr16Blocks(tiles: seq<Tile>): seq<Tile>
    requires Tiles16(tiles)
  {
    Flatten(Groups(tiles))
  }

  /** The 16x16 CHR file: its characters in planar format. */
  function Chr16File(tiles: seq<Tile>, bpp: Bpp): seq<Byte>
    requires Tiles16(tiles)
  {
    ChrBlocksCharacters(tiles);
    PackAll(Chr16Blocks(tiles), bpp)
  }

  /** The bytes of characters packed one after the other. */
  function PackAll(blocks: seq<Tile>, bpp: Bpp): (bytes: seq<Byte>)
    requires Chars(blocks)
  {
    Flatten(seq(|blocks|, m requires 0 <= m < |blocks| => PackedTile(blocks[m], bpp)))
  }

  lemma PackAllConcat(a: seq<Tile>, b: seq<Tile>, bpp: Bpp)
    requires Chars(a)
    requires Chars(b)
    ensures Chars(a + b)
    ensures PackAll(a + b, bpp) == PackAll(a, bpp) + PackAll(b, bpp)
  {
    var pa := seq(|a|, m requires 0 <= m < |a| => PackedTile(a[m], bpp));
    var pb := seq(|b|, m requires 0 <= m < |b| => PackedTile(b[m], bpp));
    assert seq(|a + b|, m requires 0 <= m < |a + b| => PackedTile((a + b)[m], bpp)) == pa + pb;
    FlattenConcat(pa, pb);
  }

  lemma PackAllOne(t: Tile, bpp: Bpp)
    requires |t| == 64
    ensures Chars([t]) && PackAll([t], bpp) == PackedTile(t, bpp)
  {
    var ps := seq(1, m requires 0 <= m < 1 => PackedTile([t][m], bpp));
    assert ps == [PackedTile(t, bpp)];
    assert Flatten(ps) == ps[0] + Flatten(ps[1..]);
  }

  /** Character m of the file starts at byte m * 8 * bpp. */
  lemma PackAllIndex(blocks: seq<Tile>, bpp: Bpp, m: nat, o: nat)
    requires Chars(blocks)
    requires m < |blocks| && o < 8 * bpp
    ensures |PackAll(blocks, bpp)| == |blocks| * (8 * bpp)
    ensures m * (8 * bpp) + o < |PackAll(blocks, bpp)|
    ensures PackAll(blocks, bpp)[m * (8 * bpp) + o] == PackedTile(blocks[m], bpp)[o]
  {
    var ps := seq(|blocks|, m requires 0 <= m < |blocks| => PackedTile(blocks[m], bpp));
    assert Uniform(ps, 8 * bpp);
    FlattenIndex(ps, 8 * bpp, m, o);
  }

  /** The 8x8 CHR loop: each tile packed in turn. */
  method WriteChr8(tiles: seq<Tile>, bpp: Bpp) returns (out: seq<Byte>)
    requires Chars(tiles)
    ensures out == PackAll(tiles, bpp)
  {
    out := [];
    for m := 0 to |tiles|
      invariant out == PackAll(tiles[..m], bpp)
    {
      var packed := PackTile(tiles[m], bpp);
      PackAllConcat(tiles[..m], [tiles[m]], bpp);
      assert tiles[..m + 1] == tiles[..m] + [tiles[m]];
      PackAllOne(tiles[m], bpp);
      out := out + packed;
    }
    assert tiles[..|tiles|] == tiles;
  }

  /** The bytes the `for i in range(8)` loop has written after i steps. */
  ghost function HalfBytes(tiles: seq<Tile>, bpp: Bpp, k: nat, j: nat, skip: bool, i: nat): seq<Byte>
    requires Tiles16(tiles) && j < 2
  {
    if i == 0 then []
    else
      var p := Pair(tiles, k + i - 1, j);
      assert Chars(p);
      HalfBytes(tiles, bpp, k, j, skip, i - 1) + (if k + i - 1 < |tiles| || !skip then PackAll(p, bpp) else [])
  }

  lemma HalfBytesStep(tiles: seq<Tile>, bpp: Bpp, k: nat, j: nat, skip: bool, i: nat)
    requires Tiles16(tiles) && j < 2
    ensures Chars(Pair(tiles, k + i, j))
    ensures HalfBytes(tiles, bpp, k, j, skip, i + 1) ==
      HalfBytes(tiles, bpp, k, j, skip, i) +
      (if k + i < |tiles| || !skip then PackAll(Pair(tiles, k + i, j), bpp) else [])
  {
    assert k + (i + 1) - 1 == k + i;
  }

  /** The characters of the pairs written in the first i steps. */
  ghost function HalfDone(tiles: seq<Tile>, k: nat, j: nat, skip: bool, i: nat): seq<Tile>
    requires Tiles16(tiles) && j < 2
  {
    var pairs := HalfPairs(tiles, k, j, skip);
    Flatten(pairs[..if i < |pairs| then i else |pairs|])
  }

  /** After all 8 steps every pair of the half is written. */
  lemma HalfDoneAll(tiles: seq<Tile>, k: nat, j: nat, skip: bool)
    requires Tiles16(tiles) && j < 2
    ensures HalfDone(tiles, k, j, skip, 8) == HalfRow(tiles, k, j, skip)
  {
    var pairs := HalfPairs(tiles, k, j, skip);
    assert pairs[..|pairs|] == pairs;
  }

  /** The loop writes the pairs of HalfRow in order: step i writes pair i
      exactly while i < HalfCount. */
  lemma {:induction false} HalfBytesRow(tiles: seq<Tile>, bpp: Bpp, k: nat, j: nat, skip: bool, i: nat)
    requires Tiles16(tiles) && k < |tiles| && j < 2 && i <= 8
    ensures Chars(HalfDone(tiles, k, j, skip, i))
    ensures HalfBytes(tiles, bpp, k, j, skip, i) == PackAll(HalfDone(tiles, k, j, skip, i), bpp)
  {
    if i == 0 {
      var pairs := HalfPairs(tiles, k, j, skip);
      assert pairs[..0] == [];
      assert HalfDone(tiles, k, j, skip, 0) == [];
      assert PackAll([], bpp) == [];
    } else {
      var h := i - 1;
      HalfBytesRow(tiles, bpp, k, j, skip, h);
      if k + h < |tiles| || !skip {
        HalfRowEmit(tiles, bpp, k, j, skip, h);
      } else {
        HalfRowSkip(tiles, bpp, k, j, skip, h);
      }
    }
  }

  /** Step h writes pair h. */
  lemma HalfRowEmit(tiles: seq<Tile>, bpp: Bpp, k: nat, j: nat, skip: bool, h: nat)
    requires Tiles16(tiles) && k < |tiles| && j < 2 && h < 8
    requires Chars(HalfDone(tiles, k, j, skip, h))
    requires HalfBytes(tiles, bpp, k, j, skip, h) == PackAll(HalfDone(tiles, k, j, skip, h), bpp)
    requires k + h < |tiles| || !skip
    ensures Chars(HalfDone(tiles, k, j, skip, h + 1))
    ensures HalfBytes(tiles, bpp, k, j, skip, h + 1) == PackAll(HalfDone(tiles, k, j, skip, h + 1), bpp)
  {
    var pairs := HalfPairs(tiles, k, j, skip);
    assert h < |pairs|;
    assert HalfDone(tiles, k, j, skip, h) == Flatten(pairs[..h]);
    assert HalfDone(tiles, k, j, skip, h + 1) == Flatten(pairs[..h + 1]);
    HalfBytesStep(tiles, bpp, k, j, skip, h);
    var p := pairs[h];
    assert p == Pair(tiles, k + h, j) && [p[0], p[1]] == p;
    assert PairsShaped(pairs);
    EmitPair(pairs, h, bpp, p[0], p[1]);
    PackAllPair(p[0], p[1], bpp);
  }

  /** Step h writes nothing once the half is complete. */
  lemma HalfRowSkip(tiles: seq<Tile>, bpp: Bpp, k: nat, j: nat, skip: bool, h: nat)
    requires Tiles16(tiles) && k < |tiles| && j < 2 && h < 8
    requires Chars(HalfDone(tiles, k, j, skip, h))
    requires HalfBytes(tiles, bpp, k, j, skip, h) == PackAll(HalfDone(tiles, k, j, skip, h), bpp)
    requires !(k + h < |tiles| || !skip)
    ensures Chars(HalfDone(tiles, k, j, skip, h + 1))
    ensures HalfBytes(tiles, bpp, k, j, skip, h + 1) == PackAll(HalfDone(tiles, k, j, skip, h + 1), bpp)
  {
    var pairs := HalfPairs(tiles, k, j, skip);
    assert |pairs| <= h;
    assert HalfDone(tiles, k, j, skip, h + 1) == HalfDone(tiles, k, j, skip, h);
    HalfBytesStep(tiles, bpp, k, j, skip, h);
  }

  /** A pair of characters packs to its two characters' bytes. */
  lemma PackAllPair(t1: Tile, t2: Tile, bpp: Bpp)
    requires |t1| == 64 && |t2| == 64
    ensures Chars([t1, t2]) && PackAll([t1, t2], bpp) == PackedTile(t1, bpp) + PackedTile(t2, bpp)
  {
    PackAllOne(t1, bpp);
    PackAllOne(t2, bpp);
    PackAllConcat([t1], [t2], bpp);
    assert [t1] + [t2] == [t1, t2];
  }

  /** The `for i in range(8)` loop for one half of one group. */
  method WriteHalf(tiles: seq<Tile>, bpp: Bpp, k: nat, j: nat) returns (out: seq<Byte>)
    requires Tiles16(tiles) && k < |tiles| && j < 2
    ensures var h := HalfRow(tiles, k, j, j == 1 && k / 8 == (|tiles| - 1) / 8);
      Chars(h) && out == PackAll(h, bpp)
  {
    ghost var skip := j == 1 && k / 8 == (|tiles| - 1) / 8;
    out := [];
    for i := 0 to 8
      invariant out == HalfBytes(tiles, bpp, k, j, skip, i)
    {
      var written, tile8x8_1, tile8x8_2, packed := HalfStep(tiles, bpp, k, j, i);
      HalfBytesStep(tiles, bpp, k, j, skip, i);
      if written {
        out := out + packed;
      }
    }
    HalfBytesRow(tiles, bpp, k, j, skip, 8);
    HalfDoneAll(tiles, k, j, skip);
  }

  /** One step of that loop: the pair for position k + i, or nothing
      (`continue`) past the last tile in the bottom half of the last group. */
  method HalfStep(tiles: seq<Tile>, bpp: Bpp, k: nat, j: nat, i: nat)
      returns (written: bool, tile8x8_1: Tile, tile8x8_2: Tile, packed: seq<Byte>)
    requires Tiles16(tiles) && j < 2
    ensures written <==> (k + i < |tiles| || !(j == 1 && k / 8 == (|tiles| - 1) / 8))
    ensures written ==> [tile8x8_1, tile8x8_2] == Pair(tiles, k + i, j)
    ensures written ==> packed == PackedTile(tile8x8_1, bpp) + PackedTile(tile8x8_2, bpp)
    ensures written ==> Chars(Pair(tiles, k + i, j)) && packed == PackAll(Pair(tiles, k + i, j), bpp)
  {
    if k + i < |tiles| {
      tile8x8_1, tile8x8_2 := CropHalves(tiles[k + i], j);
    } else {
      if j == 1 && k / 8 == (|tiles| - 1) / 8 {
        return false, [], [], [];
      }
      tile8x8_1 := Blank();
      tile8x8_2 := tile8x8_1;
    }
    var packed1 := PackTile(tile8x8_1, bpp);
    var packed2 := PackTile(tile8x8_2, bpp);
    PackAllPair(tile8x8_1, tile8x8_2, bpp);
    written, packed := true, packed1 + packed2;
  }

  /** The left and right 8 x 8 quadrants of half j of a 16 x 16 tile. */
  method CropHalves(tile16x16: Tile, j: nat) returns (tile8x8_1: Tile, tile8x8_2: Tile)
    requires |tile16x16| == 256 && j < 2
    ensures tile8x8_1 == Quadrant(tile16x16, 0, j) && tile8x8_2 == Quadrant(tile16x16, 1, j)
  {
    tile8x8_1 := Crop16(tile16x16, 0, 8 * j, 8, 8 * j + 8);
    tile8x8_2 := Crop16(tile16x16, 8, 8 * j, 8 + 8, 8 * j + 8);
  }

  /** Writing the next pair appends its packed characters. */
  lemma EmitPair(pairs: seq<seq<Tile>>, e: nat, bpp: Bpp, t1: Tile, t2: Tile)
    requires e < |pairs|
    requires PairsShaped(pairs)
    requires pairs[e] == [t1, t2]
    ensures Chars(Flatten(pairs[..e])) && Chars(Flatten(pairs[..e + 1]))
    ensures PackAll(Flatten(pairs[..e + 1]), bpp) ==
            PackAll(Flatten(pairs[..e]), bpp) + (PackedTile(t1, bpp) + PackedTile(t2, bpp))
  {
    assert pairs[..e + 1] == pairs[..e] + [pairs[e]];
    FlattenConcat(pairs[..e], [pairs[e]]);
    assert Flatten([pairs[e]]) == pairs[e];
    PairsCharacters(pairs[..e]);
    PairsCharacters(pairs[..e + 1]);
    PackAllConcat(Flatten(pairs[..e]), pairs[e], bpp);
    PackAllOne(t1, bpp);
    PackAllOne(t2, bpp);
    PackAllConcat([t1], [t2], bpp);
    assert [t1] + [t2] == pairs[e];
  }

  lemma {:induction false} PairsCharacters(pairs: seq<seq<Tile>>)
    requires PairsShaped(pairs)
    ensures Chars(Flatten(pairs))
  {
    if pairs != [] {
      PairsCharacters(pairs[1..]);
      assert forall m :: 2 <= m < |Flatten(pairs)| ==> Flatten(pairs)[m] == Flatten(pairs[1..])[m - 2];
    }
  }

  /** The 16x16 CHR loops. */
  method WriteChr16(tiles: seq<Tile>, bpp: Bpp) returns (out: seq<Byte>)
    requires Tiles16(tiles)
    ensures out == Chr16File(tiles, bpp)
  {
    ChrBlocksCharacters(tiles);
    ghost var gs := Groups(tiles);
    out := [];
    var k := 0;
    ghost var g := 0;
    while k < |tiles|
      invariant k == 8 * g && g <= |gs|
      invariant k >= |tiles| ==> g == |gs|
      invariant Chars(Flatten(gs[..g]))
      invariant out == PackAll(Flatten(gs[..g]), bpp)
    {
      assert k / 8 == g;
      var top := WriteHalf(tiles, bpp, k, 0);
      var bottom := WriteHalf(tiles, bpp, k, 1);
      EmitGroup(tiles, gs, g, bpp);
      out := out + top + bottom;
      k, g := k + 8, g + 1;
    }
    assert gs[..g] == gs;
  }

  lemma EmitGroup(tiles: seq<Tile>, gs: seq<seq<Tile>>, g: nat, bpp: Bpp)
    requires Tiles16(tiles) && gs == Groups(tiles) && 8 * g < |tiles|
    requires Chars(Flatten(gs[..g]))
    ensures g < |gs|
    ensures var top := HalfRow(tiles, 8 * g, 0, false);
      var bottom := HalfRow(tiles, 8 * g, 1, g == (|tiles| - 1) / 8);
      && Chars(top)
      && Chars(bottom)
      && Chars(Flatten(gs[..g + 1]))
      && PackAll(Flatten(gs[..g + 1]), bpp) ==
         PackAll(Flatten(gs[..g]), bpp) + PackAll(top, bpp) + PackAll(bottom, bpp)
  {
    var top := HalfRow(tiles, 8 * g, 0, false);
    var bottom := HalfRow(tiles, 8 * g, 1, g == (|tiles| - 1) / 8);
    HalfCharacters(tiles, 8 * g, 0, false);
    HalfCharacters(tiles, 8 * g, 1, g == (|tiles| - 1) / 8);
    assert gs[g] == top + bottom;
    assert gs[..g + 1] == gs[..g] + [gs[g]];
    FlattenConcat(gs[..g], [gs[g]]);
    assert Flatten([gs[g]]) == gs[g];
    PackAllConcat(top, bottom, bpp);
    PackAllConcat(Flatten(gs[..g]), gs[g], bpp);
  }

  lemma HalfCharacters(tiles: seq<Tile>, k: nat, half: nat, skip: bool)
    requires Tiles16(tiles) && half < 2
    ensures var h := HalfRow(tiles, k, half, skip);
      |h| == 2 * HalfCount(|tiles|, k, skip) && Chars(h)
  {
    var c := HalfCount(|tiles|, k, skip);
    var pairs := HalfPairs(tiles, k, half, skip);
    PairsCharacters(pairs);
    FlattenLength(pairs, 2);
  }

  /** Character 2 * i + qx of a half is quadrant qx of its i-th pair. */
  lemma HalfRowIndex(tiles: seq<Tile>, k: nat, half: nat, skip: bool, i: nat, qx: nat)
    requires Tiles16(tiles) && half < 2 && qx < 2
    requires i < HalfCount(|tiles|, k, skip)
    ensures var h := HalfRow(tiles, k, half, skip);
      |h| == 2 * HalfCount(|tiles|, k, skip) && 2 * i + qx < |h| && h[2 * i + qx] == Pair(tiles, k + i, half)[qx]
  {
    var pairs := HalfPairs(tiles, k, half, skip);
    assert Uniform(pairs, 2);
    FlattenIndex(pairs, 2, i, qx);
  }

  /** Character 16 * half + 2 * i + qx of group g belongs to position 8 * g + i;
      only the top half is written for positions past the last tile. */
  lemma GroupIndex(tiles: seq<Tile>, g: nat, i: nat, half: nat, qx: nat)
    requires Tiles16(tiles) && 8 * g < |tiles| && i < 8 && half < 2 && qx < 2
    requires half == 0 || 8 * g + i < |tiles|
    ensures |Group(tiles, g)| == 16 + 2 * HalfCount(|tiles|, 8 * g, g == (|tiles| - 1) / 8)
    ensures 16 * half + 2 * i + qx < |Group(tiles, g)|
    ensures Group(tiles, g)[16 * half + 2 * i + qx] == Pair(tiles, 8 * g + i, half)[qx]
  {
    var skip := g == (|tiles| - 1) / 8;
    var top := HalfRow(tiles, 8 * g, 0, false);
    var bottom := HalfRow(tiles, 8 * g, 1, skip);
    assert Group(tiles, g) == top + bottom;
    HalfCharacters(tiles, 8 * g, 0, false);
    HalfCharacters(tiles, 8 * g, 1, skip);
    var at := 16 * half + 2 * i + qx;
    assert |top| == 16;
    if half == 0 {
      HalfRowIndex(tiles, 8 * g, 0, false, i, qx);
      assert (top + bottom)[at] == top[2 * i + qx];
      assert Group(tiles, g)[at] == Pair(tiles, 8 * g + i, half)[qx];
    } else {
      assert i < HalfCount(|tiles|, 8 * g, skip);
      HalfRowIndex(tiles, 8 * g, 1, skip, i, qx);
      assert (top + bottom)[at] == bottom[2 * i + qx];
      assert Group(tiles, g)[at] == Pair(tiles, 8 * g + i, half)[qx];
    }
  }

  /** Every group but the last holds 32 characters. */
  lemma FullGroup(tiles: seq<Tile>, g: nat)
    requires Tiles16(tiles) && 8 * (g + 1) < |tiles|
    ensures |Group(tiles, g)| == 32
  {
    assert g < (|tiles| - 1) / 8;
    HalfCharacters(tiles, 8 * g, 0, false);
    HalfCharacters(tiles, 8 * g, 1, false);
  }

  /** The groups before g hold 32 characters each. */
  lemma GroupsPrefix(tiles: seq<Tile>, g: nat)
    requires Tiles16(tiles) && g < GroupCount(|tiles|)
    ensures forall m :: 0 <= m < g ==> |Groups(tiles)[m]| == 32
  {
    forall m | 0 <= m < g
      ensures |Groups(tiles)[m]| == 32
    {
      FullGroup(tiles, m);
    }
  }

  /** Character 16 * half + 2 * i + qx of group g, read in the whole file. */
  lemma BlocksIndex(tiles: seq<Tile>, g: nat, i: nat, half: nat, qx: nat)
    requires Tiles16(tiles) && 8 * g < |tiles| && i < 8 && half < 2 && qx < 2
    requires half == 0 || 8 * g + i < |tiles|
    ensures 32 * g + 16 * half + 2 * i + qx < |Chr16Blocks(tiles)|
    ensures Chr16Blocks(tiles)[32 * g + 16 * half + 2 * i + qx] == Pair(tiles, 8 * g + i, half)[qx]
  {
    var gs := Groups(tiles);
    assert gs[g] == Group(tiles, g);
    GroupIndex(tiles, g, i, half, qx);
    GroupsPrefix(tiles, g);
    FlattenPrefixIndex(gs, 32, g, 16 * half + 2 * i + qx);
  }

  /** The four characters of 16x16 tile idx are Renumber(idx) + 0 and + 1
      (its top left and right quadrants) and + 16 and + 17 (its bottom
      ones), so the tile map's renumbered index finds them. */
  lemma Chr16Layout(tiles: seq<Tile>, idx: nat, half: nat, qx: nat)
    requires Tiles16(tiles) && idx < |tiles| && half < 2 && qx < 2
    ensures Renumber(idx) + 16 * half + qx < |Chr16Blocks(tiles)|
    ensures Chr16Blocks(tiles)[Renumber(idx) + 16 * half + qx] == Quadrant(tiles[idx], qx, half)
  {
    BlocksIndex(tiles, idx / 8, idx % 8, half, qx);
  }

  /** The last group's top half is padded with blank characters up to a
      multiple of 8 tiles. */
  lemma Chr16Padding(tiles: seq<Tile>, idx: nat, qx: nat)
    requires Tiles16(tiles) && |tiles| <= idx < 8 * GroupCount(|tiles|) && qx < 2
    ensures Renumber(idx) + qx < |Chr16Blocks(tiles)|
    ensures Chr16Blocks(tiles)[Renumber(idx) + qx] == Blank()
  {
    BlocksIndex(tiles, idx / 8, idx % 8, 0, qx);
  }

  /** The number of characters: 32 per group, except that the last group's
      bottom half stops at the last tile. */
  lemma Chr16Count(tiles: seq<Tile>)
    requires Tiles16(tiles)
    ensures var n := |tiles|;
      |Chr16Blocks(tiles)| == if n == 0 then 0 else 32 * ((n - 1) / 8) + 16 + 2 * (n - 8 * ((n - 1) / 8))
  {
    var n := |tiles|;
    var gs := Groups(tiles);
    if n > 0 {
      var last := (n - 1) / 8;
      assert gs == gs[..last] + [gs[last]];
      FlattenConcat(gs[..last], [gs[last]]);
      assert Flatten([gs[last]]) == gs[last];
      GroupsPrefix(tiles, last);
      assert Uniform(gs[..last], 32);
      FlattenLength(gs[..last], 32);
      HalfCharacters(tiles, 8 * last, 0, false);
      HalfCharacters(tiles, 8 * last, 1, true);
    }
  }

  /** Bytes of the 16x16 CHR file: character Renumber(idx) + 16 * half + qx
      is quadrant (qx, half) of tile idx in planar format. */
  lemma Chr16Bytes(tiles: seq<Tile>, bpp: Bpp, idx: nat, half: nat, qx: nat, o: nat)
    requires Tiles16(tiles) && idx < |tiles| && half < 2 && qx < 2 && o < 8 * bpp
    ensures var m := Renumber(idx) + 16 * half + qx;
      && m * (8 * bpp) + o < |Chr16File(tiles, bpp)|
      && Chr16File(tiles, bpp)[m * (8 * bpp) + o] == PackedTile(Quadrant(tiles[idx], qx, half), bpp)[o]
  {
    var blocks := Chr16Blocks(tiles);
    ChrBlocksCharacters(tiles);
    Chr16Layout(tiles, idx, half, qx);
    PackAllIndex(blocks, bpp, Renumber(idx) + 16 * half + qx, o);
  }

  lemma ChrBlocksCharacters(tiles: seq<Tile>)
    requires Tiles16(tiles)
    ensures Chars(Chr16Blocks(tiles))
  {
    var gs := Groups(tiles);
    forall g | 0 <= g < |gs|
      ensures Chars(gs[g])
    {
      HalfCharacters(tiles, 8 * g, 0, false);
      HalfCharacters(tiles, 8 * g, 1, g == (|tiles| - 1) / 8);
      var top := HalfRow(tiles, 8 * g, 0, false);
      var bottom := HalfRow(tiles, 8 * g, 1, g == (|tiles| - 1) / 8);
      assert gs[g] == top + bottom;
    }
    FlattenChars(gs);
  }

  lemma {:induction false} FlattenChars(gs: seq<seq<Tile>>)
    requires forall g :: 0 <= g < |gs| ==> Chars(gs[g])
    ensures Chars(Flatten(gs))
  {
    if gs != [] {
      FlattenChars(gs[1..]);
      assert Flatten(gs) == gs[0] + Flatten(gs[1..]);
    }
  }
}
