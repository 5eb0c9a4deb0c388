/** Per-tile palette-number resolution and masking (the body of the cell
    loop of process before deduplication). A pixel byte holds a colour index
    in its low bpp bits and a palette number above them. */
module Extract {

  import opened Types
  import opened Bits

  /** `pixel & mask != 0`: colour index 0 is transparent. */
  predicate Opaque(p: Byte, bpp: Bpp)
  {
    p % Pow2(bpp) != 0
  }

  /** `pixel >> bpp` */
  function GroupOf(p: Byte, bpp: Bpp): nat
  {
    Shr(p, bpp)
  }

  /** The position of the last opaque pixel, if there is one. */
  function LastOpaque(t: Tile, bpp: Bpp): (r: Option<nat>)
    ensures r.None? <==> forall k :: 0 <= k < |t| ==> !Opaque(t[k], bpp)
    ensures r.Some? ==> r.value < |t| && Opaque(t[r.value], bpp)
    ensures r.Some? ==> forall k :: r.value < k < |t| ==> !Opaque(t[k], bpp)
  {
    if t == [] then None
    else if Opaque(t[|t| - 1], bpp) then Some(|t| - 1)
    else LastOpaque(t[..|t| - 1], bpp)
  }

  /** The tile's palette number: the group of its last opaque pixel, 0 for
      a fully transparent tile, then `& 7`. */
  function PaletteNumber(t: Tile, bpp: Bpp): (n: nat)
    ensures n < 8
  {
    match LastOpaque(t, bpp)
    case None => 0
    case Some(k) => GroupOf(t[k], bpp) % 8
  }

  /** Two opaque pixels of the tile have different palette numbers. */
  ghost predicate MixedPalettes(t: Tile, bpp: Bpp)
  {
    exists a, b :: (0 <= a < b < |t| && Opaque(t[a], bpp) && Opaque(t[b], bpp) &&
                    GroupOf(t[a], bpp) != GroupOf(t[b], bpp))
  }

  /** The group of the last opaque pixel among the first i, if any. */
  function Latest(t: Tile, bpp: Bpp, i: nat): (g: Option<nat>)
    requires i <= |t|
    ensures g.None? <==> forall k :: 0 <= k < i ==> !Opaque(t[k], bpp)
    ensures g.Some? ==> exists k :: 0 <= k < i && Opaque(t[k], bpp) && g.value == GroupOf(t[k], bpp)
  {
    var r := LastOpaque(t[..i], bpp);
    assert forall k :: 0 <= k < i ==> t[..i][k] == t[k];
    match r
    case None => None
    case Some(k) => Some(GroupOf(t[k], bpp))
  }

  lemma LatestStep(t: Tile, bpp: Bpp, i: nat)
    requires i < |t|
    ensures Latest(t, bpp, i + 1) == if Opaque(t[i], bpp) then Some(GroupOf(t[i], bpp)) else Latest(t, bpp, i)
  {
    assert t[..i + 1][..i] == t[..i];
  }

  /** Two opaque pixels among the first i have different palette numbers. */
  ghost predicate MixedBefore(t: Tile, bpp: Bpp, i: nat)
    requires i <= |t|
  {
    exists a, b :: (0 <= a < b < i && Opaque(t[a], bpp) && Opaque(t[b], bpp) &&
                    GroupOf(t[a], bpp) != GroupOf(t[b], bpp))
  }

  /** The warning flag of the palette loop after i pixels: raised at the
      first opaque pixel whose group differs from the latest opaque one
      before it, and never lowered. */
  function Warned(t: Tile, bpp: Bpp, i: nat): bool
    requires i <= |t|
  {
    if i == 0 then false
    else
      Warned(t, bpp, i - 1) ||
      (Opaque(t[i - 1], bpp) && Latest(t, bpp, i - 1).Some? &&
       Latest(t, bpp, i - 1).value != GroupOf(t[i - 1], bpp))
  }

  /** The loop warns exactly when two opaque pixels disagree; until then all
      opaque pixels share the latest group. */
  lemma {:induction false} WarnedIffMixed(t: Tile, bpp: Bpp, i: nat)
    requires i <= |t|
    ensures Warned(t, bpp, i) <==> MixedBefore(t, bpp, i)
    ensures !MixedBefore(t, bpp, i) ==>
      forall k :: 0 <= k < i && Opaque(t[k], bpp) ==> Latest(t, bpp, i) == Some(GroupOf(t[k], bpp))
  {
    if i > 0 {
      var j := i - 1;
      WarnedIffMixed(t, bpp, j);
      LatestStep(t, bpp, j);
      if MixedBefore(t, bpp, j) {
        var a, b :| 0 <= a < b < j && Opaque(t[a], bpp) && Opaque(t[b], bpp) &&
                    GroupOf(t[a], bpp) != GroupOf(t[b], bpp);
        assert b < i && MixedBefore(t, bpp, i);
        assert Warned(t, bpp, i);
      } else if Opaque(t[j], bpp) && Latest(t, bpp, j).Some? && Latest(t, bpp, j).value != GroupOf(t[j], bpp) {
        var k :| 0 <= k < j && Opaque(t[k], bpp) && Latest(t, bpp, j).value == GroupOf(t[k], bpp);
        assert k < j < i && GroupOf(t[k], bpp) != GroupOf(t[j], bpp);
        assert MixedBefore(t, bpp, i);
        assert Warned(t, bpp, i);
      } else {
        assert !Warned(t, bpp, i);
        AgreeStep(t, bpp, j);
      }
    }
  }

  /** Pixel j agreeing with the latest group keeps the first j + 1 pixels
      unmixed. */
  lemma AgreeStep(t: Tile, bpp: Bpp, j: nat)
    requires j < |t| && !MixedBefore(t, bpp, j)
    requires forall k :: 0 <= k < j && Opaque(t[k], bpp) ==> Latest(t, bpp, j) == Some(GroupOf(t[k], bpp))
    requires !(Opaque(t[j], bpp) && Latest(t, bpp, j).Some? && Latest(t, bpp, j).value != GroupOf(t[j], bpp))
    ensures !MixedBefore(t, bpp, j + 1)
    ensures forall k :: 0 <= k < j + 1 && Opaque(t[k], bpp) ==> Latest(t, bpp, j + 1) == Some(GroupOf(t[k], bpp))
  {
    LatestStep(t, bpp, j);
    forall a, b | 0 <= a < b < j + 1 && Opaque(t[a], bpp) && Opaque(t[b], bpp)
      ensures GroupOf(t[a], bpp) == GroupOf(t[b], bpp)
    {
      if b == j {
        assert Latest(t, bpp, j) == Some(GroupOf(t[a], bpp));
      }
    }
  }

  /** The palette loop for one tile: remembers the group of the latest opaque
      pixel and warns when it differs from the one before, at most once. */
  method ResolvePalette(t: Tile, bpp: Bpp) returns (paletteNum: nat, warned: bool)
    ensures paletteNum == PaletteNumber(t, bpp)
    ensures warned <==> MixedPalettes(t, bpp)
  {
    var current: Option<nat> := None;
    warned := false;
    var i := 0;
    while i < |t|
      invariant 0 <= i <= |t|
      invariant current == Latest(t, bpp, i)
      invariant warned == Warned(t, bpp, i)
    {
      var pixel := t[i];
      LatestStep(t, bpp, i);
      if pixel % Pow2(bpp) != 0 {
        var pixelPalette := Shr(pixel, bpp);
        if !warned && current.Some? && current.value != pixelPalette {
          warned := true;
        }
        current := Some(pixelPalette);
      }
      i := i + 1;
    }
    assert t[..i] == t;
    WarnedIffMixed(t, bpp, i);
    paletteNum := if current.None? then 0 else current.value;
    paletteNum := paletteNum % 8;
  }

  /** A tile that uses one palette gets that palette's number. */
  lemma SinglePalette(t: Tile, bpp: Bpp, k: nat)
    requires k < |t| && Opaque(t[k], bpp) && !MixedPalettes(t, bpp)
    ensures PaletteNumber(t, bpp) == GroupOf(t[k], bpp) % 8
  {
    var last := LastOpaque(t, bpp).value;
    if k < last {
      assert GroupOf(t[k], bpp) == GroupOf(t[last], bpp);
    }
  }

  /** At 8 bits per pixel no bits are left for a palette number. */
  lemma NoGroupAt8Bpp(t: Tile)
    ensures PaletteNumber(t, 8) == 0
    ensures !MixedPalettes(t, 8)
  {
    forall k | 0 <= k < |t|
      ensures GroupOf(t[k], 8) == 0
    {
      ShrBound(t[k], 8);
    }
  }

  /** `"".join(map(lambda x: chr(ord(x) & mask), rawTile))` */
  function Masked(t: Tile, bpp: Bpp): (r: Tile)
    ensures |r| == |t|
    ensures forall k :: 0 <= k < |t| ==> r[k] < Pow2(bpp) && r[k] == t[k] % Pow2(bpp)
  {
    seq(|t|, k requires 0 <= k < |t| => MaskByte(t[k], bpp))
  }

  /** `chr(ord(x) & mask)` */
  function MaskByte(p: Byte, bpp: Bpp): (r: Byte)
    ensures r < Pow2(bpp) && r == p % Pow2(bpp)
  {
    Pow2OfBpp(bpp);
    p % Pow2(bpp)
  }

  lemma Pow2OfBpp(bpp: Bpp)
    ensures Pow2(bpp) == if bpp == 2 then 4 else if bpp == 4 then 16 else 256
  {
  }

  /** Masking a masked tile changes nothing. */
  lemma MaskedIdempotent(t: Tile, bpp: Bpp)
    ensures Masked(Masked(t, bpp), bpp) == Masked(t, bpp)
  {
    var m := Masked(t, bpp);
    forall k | 0 <= k < |t|
      ensures Masked(m, bpp)[k] == m[k]
    {
      Bits.DivModUnique(m[k], Pow2(bpp), 0, m[k]);
    }
  }
}
