/** SNES planar tile format (packPlane, packTile): an 8x8 tile of 2, 4 or 8
    bits per pixel is stored as 8 * bpp bytes. Planes are taken in pairs
    and for each pair the 8 rows alternate low plane, high plane; each byte
    holds one plane of one row, leftmost pixel in bit 7. */
module Planar {

  import opened Types
  import opened Bits

  /** `reduce(lambda x, y: (x << 1) | y, bits)`: the first bit ends up most
      significant. */
  function PackBits(bits: seq<nat>): nat
  {
    if bits == [] then 0 else PackBits(bits[..|bits| - 1]) * 2 + bits[|bits| - 1]
  }

  lemma BitOfDouble(x: nat, b: nat, m: nat)
    requires b < 2
    ensures Bit(x * 2 + b, 0) == b
    ensures m > 0 ==> Bit(x * 2 + b, m) == Bit(x, m - 1)
  {
    assert (x * 2 + b) / 2 == x;
  }

  /** Bit n - 1 - i of the packed value is bits[i], and it fits in n bits. */
  lemma {:induction false} PackBitsBits(bits: seq<nat>)
    requires forall i :: 0 <= i < |bits| ==> bits[i] < 2
    ensures PackBits(bits) < Pow2(|bits|)
    ensures forall i :: 0 <= i < |bits| ==> Bit(PackBits(bits), |bits| - 1 - i) == bits[i]
  {
    if bits != [] {
      var n := |bits|;
      var init := bits[..n - 1];
      PackBitsBits(init);
      var x := PackBits(init);
      forall i | 0 <= i < n
        ensures Bit(x * 2 + bits[n - 1], n - 1 - i) == bits[i]
      {
        BitOfDouble(x, bits[n - 1], n - 1 - i);
        if i < n - 1 {
          assert init[i] == bits[i];
        }
      }
    }
  }

  /** packPlane: the bit `plane` of each of the row's 8 pixels, packed
      leftmost pixel first. */
  function PackPlane(row: seq<Byte>, plane: nat): (b: Byte)
    requires |row| == 8
    ensures forall i :: 0 <= i < 8 ==> Bit(b, 7 - i) == Bit(row[i], plane)
  {
    var bits := seq(8, i requires 0 <= i < 8 => Bit(row[i], plane));
    PackBitsBits(bits);
    assert forall i :: 0 <= i < 8 ==> bits[i] == Bit(row[i], plane) && Bit(PackBits(bits), 7 - i) == bits[i];
    PackBits(bits)
  }

  /** The row of output byte k: `k // 2 % 8`. */
  function RowOf(k: nat): nat
  {
    k / 2 % 8
  }

  /** The plane of output byte k: `2 * (k >> 4) | (k & 1)`; the two fields
      do not overlap, so the `|` is a `+`. */
  function PlaneOf(k: nat): nat
  {
    2 * (k / 16) + k % 2
  }

  /** Where plane p of row r is stored. */
  function ByteIndex(r: nat, p: nat): nat
  {
    16 * (p / 2) + 2 * r + p % 2
  }

  /** Each (row, plane) pair of a tile has its own output byte, inside the
      8 * bpp bytes, and the byte's row and plane are that pair. */
  lemma ByteIndexInverse(r: nat, p: nat, bpp: Bpp)
    requires r < 8 && p < bpp
    ensures ByteIndex(r, p) < 8 * bpp
    ensures RowOf(ByteIndex(r, p)) == r && PlaneOf(ByteIndex(r, p)) == p
  {
    var k := ByteIndex(r, p);
    DivModUnique(k, 2, 8 * (p / 2) + r, p % 2);
    DivModUnique(8 * (p / 2) + r, 8, p / 2, r);
    DivModUnique(k, 16, p / 2, 2 * r + p % 2);
  }

  /** The bytes packTile emits for a 64-pixel tile. */
  function PackedTile(t: Tile, bpp: Bpp): (r: seq<Byte>)
    requires |t| == 64
    ensures |r| == 8 * bpp
  {
    seq(8 * bpp, k requires 0 <= k < 8 * bpp => PackPlane(t[8 * RowOf(k) .. 8 * RowOf(k) + 8], PlaneOf(k)))
  }

  /** packTile: one byte per loop step, 8 * bpp steps. */
  method PackTile(t: Tile, bpp: Bpp) returns (result: seq<Byte>)
    requires |t| == 64
    ensures result == PackedTile(t, bpp)
  {
    result := [];
    var k := 0;
    while k < 8 * bpp
      invariant 0 <= k <= 8 * bpp
      invariant result == PackedTile(t, bpp)[..k]
    {
      var row := k / 2 % 8;
      var plane := 2 * (k / 16) + k % 2;
      var rowData := t[8 * row .. 8 * row + 8];
      result := result + [PackPlane(rowData, plane)];
      k := k + 1;
    }
  }

  /** Bit 7 - i of output byte k is bit PlaneOf(k) of pixel i of row RowOf(k). */
  lemma PackedTileBits(t: Tile, bpp: Bpp, k: nat, i: nat)
    requires |t| == 64 && k < 8 * bpp && i < 8
    ensures 8 * RowOf(k) + i < 64
    ensures Bit(PackedTile(t, bpp)[k], 7 - i) == Bit(t[8 * RowOf(k) + i], PlaneOf(k))
  {
    var row := t[8 * RowOf(k) .. 8 * RowOf(k) + 8];
    assert row[i] == t[8 * RowOf(k) + i];
  }

  /** The colour index of pixel i of row r, read back from its bpp planes. */
  function UnpackPixel(data: seq<Byte>, bpp: Bpp, r: nat, i: nat): nat
    requires |data| == 8 * bpp && r < 8 && i < 8
  {
    FromBits(seq(bpp, p requires 0 <= p < bpp =>
      (ByteIndexInverse(r, p, bpp); Bit(data[ByteIndex(r, p)], 7 - i))))
  }

  /** The 64 pixels of a packed tile. */
  function Unpack(data: seq<Byte>, bpp: Bpp): (t: seq<nat>)
    requires |data| == 8 * bpp
    ensures |t| == 64
  {
    seq(64, q requires 0 <= q < 64 => UnpackPixel(data, bpp, q / 8, q % 8))
  }

  /** Plane p of pixel q is where ByteIndex says. */
  lemma PlaneBitPacked(t: Tile, bpp: Bpp, q: nat, p: nat)
    requires |t| == 64 && q < 64 && p < bpp
    ensures ByteIndex(q / 8, p) < 8 * bpp
    ensures Bit(PackedTile(t, bpp)[ByteIndex(q / 8, p)], 7 - q % 8) == Bit(t[q], p)
  {
    ByteIndexInverse(q / 8, p, bpp);
    PackedTileBits(t, bpp, ByteIndex(q / 8, p), q % 8);
  }

  /** One pixel survives packing. */
  lemma UnpackPixelPacked(t: Tile, bpp: Bpp, q: nat)
    requires |t| == 64 && q < 64 && t[q] < Pow2(bpp)
    ensures UnpackPixel(PackedTile(t, bpp), bpp, q / 8, q % 8) == t[q]
  {
    var data := PackedTile(t, bpp);
    var r, i := q / 8, q % 8;
    var bits := seq(bpp, p requires 0 <= p < bpp =>
      (ByteIndexInverse(r, p, bpp); Bit(data[ByteIndex(r, p)], 7 - i)));
    forall p | 0 <= p < bpp
      ensures bits[p] == ToBits(t[q], bpp)[p]
    {
      PlaneBitPacked(t, bpp, q, p);
    }
    assert bits == ToBits(t[q], bpp);
    FromToBits(t[q], bpp);
  }

  /** Packing loses nothing of a tile whose pixels fit in bpp bits. */
  lemma UnpackPacked(t: Tile, bpp: Bpp)
    requires |t| == 64
    requires forall q :: 0 <= q < 64 ==> t[q] < Pow2(bpp)
    ensures Unpack(PackedTile(t, bpp), bpp) == t
  {
    forall q | 0 <= q < 64
      ensures Unpack(PackedTile(t, bpp), bpp)[q] == t[q]
    {
      UnpackPixelPacked(t, bpp, q);
    }
  }
}
