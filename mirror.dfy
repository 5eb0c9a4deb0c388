/** Horizontal and vertical mirroring of a row-major tile whose rows are
    `stride` bytes wide (mirrorH, mirrorV). */
module Mirror {

  import opened Types
  import opened Seqs

  /** Each row reversed in place: the value mirrorH computes. */
  function MirroredH(t: Tile, stride: nat): Tile
    requires stride > 0
  {
    Flatten(ReverseEach(Chunks(t, stride)))
  }

  function ReverseEach(rows: seq<Tile>): (r: seq<Tile>)
    ensures |r| == |rows|
    ensures forall i :: 0 <= i < |rows| ==> r[i] == Reverse(rows[i])
  {
    seq(|rows|, i requires 0 <= i < |rows| => Reverse(rows[i]))
  }

  /** mirrorV: the order of the rows reversed, each row unchanged. */
  function MirrorV(t: Tile, stride: nat): (r: Tile)
    requires stride > 0 && |t| % stride == 0
    ensures |r| == |t|
    ensures Chunks(r, stride) == Reverse(Chunks(t, stride))
  {
    RowsReversed(t, stride);
    Flatten(Reverse(Chunks(t, stride)))
  }

  /** Joining the rows in reverse order keeps the length, and cutting the
      result into rows again gives the reversed rows. */
  lemma RowsReversed(t: Tile, stride: nat)
    requires stride > 0 && |t| % stride == 0
    ensures |Flatten(Reverse(Chunks(t, stride)))| == |t|
    ensures Chunks(Flatten(Reverse(Chunks(t, stride))), stride) == Reverse(Chunks(t, stride))
  {
    var rows := Chunks(t, stride);
    ChunksUniform(t, stride);
    FlattenChunks(t, stride);
    FlattenLength(rows, stride);
    assert Uniform(Reverse(rows), stride);
    FlattenLength(Reverse(rows), stride);
    ChunksFlatten(Reverse(rows), stride);
  }

  /** mirrorH: reverses each `stride`-byte row, appending row by row. */
  method MirrorH(t: Tile, stride: nat) returns (result: Tile)
    requires stride > 0 && |t| % stride == 0
    ensures result == MirroredH(t, stride)
  {
    result := [];
    var i := 0;
    while i < |t|
      invariant 0 <= i <= |t| && (|t| - i) % stride == 0
      invariant result + MirroredH(t[i..], stride) == MirroredH(t, stride)
      decreases |t| - i
    {
      MirrorHLoopStep(t, i, stride);
      result := result + Reverse(t[i..i + stride]);
      i := i + stride;
    }
  }

  lemma MirrorHLoopStep(t: Tile, i: nat, stride: nat)
    requires stride > 0 && i < |t| && (|t| - i) % stride == 0
    ensures i + stride <= |t| && (|t| - (i + stride)) % stride == 0
    ensures MirroredH(t[i..], stride) == Reverse(t[i..i + stride]) + MirroredH(t[i + stride..], stride)
  {
    ModSub(|t| - i, stride);
    MirroredHStep(t[i..], stride);
    assert t[i..][..stride] == t[i..i + stride];
    assert t[i..][stride..] == t[i + stride..];
  }

  /** One row of MirroredH. */
  lemma MirroredHStep(s: Tile, stride: nat)
    requires 0 < stride <= |s|
    ensures MirroredH(s, stride) == Reverse(s[..stride]) + MirroredH(s[stride..], stride)
  {
    var rows := Chunks(s, stride);
    if |s| == stride {
      assert rows == [s];
      assert ReverseEach(rows) == [Reverse(s)];
      assert Flatten(ReverseEach(rows)) == Reverse(s) + Flatten([]);
      assert s[..stride] == s;
      assert s[stride..] == [];
      assert MirroredH([], stride) == [];
    } else {
      assert ReverseEach(rows) == [Reverse(s[..stride])] + ReverseEach(Chunks(s[stride..], stride));
    }
  }

  /** The tile flipped as the hardware flips it for flip flags f: bit 0
      mirrors horizontally, bit 1 vertically. */
  function Flipped(t: Tile, stride: nat, f: nat): Tile
    requires stride > 0 && |t| % stride == 0 && f < 4
  {
    var h := if f % 2 == 1 then MirroredH(t, stride) else t;
    LengthsMirrored(t, stride);
    if f / 2 == 1 then MirrorV(h, stride) else h
  }

  /** Both mirrors keep the length, hence the row structure. */
  lemma LengthsMirrored(t: Tile, stride: nat)
    requires stride > 0 && |t| % stride == 0
    ensures |MirroredH(t, stride)| == |t|
    ensures |MirrorV(t, stride)| == |t|
  {
    var rows := Chunks(t, stride);
    ChunksUniform(t, stride);
    FlattenChunks(t, stride);
    FlattenLength(rows, stride);
    FlattenLength(ReverseEach(rows), stride);
    assert Uniform(Reverse(rows), stride);
    FlattenLength(Reverse(rows), stride);
  }

  lemma {:induction false} MirrorHInvolution(t: Tile, stride: nat)
    requires stride > 0 && |t| % stride == 0
    ensures MirroredH(MirroredH(t, stride), stride) == t
  {
    var rows := Chunks(t, stride);
    ChunksUniform(t, stride);
    assert Uniform(ReverseEach(rows), stride);
    ChunksFlatten(ReverseEach(rows), stride);
    forall i | 0 <= i < |rows|
      ensures ReverseEach(ReverseEach(rows))[i] == rows[i]
    {
      ReverseReverse(rows[i]);
    }
    assert ReverseEach(ReverseEach(rows)) == rows;
    FlattenChunks(t, stride);
  }

  lemma {:induction false} MirrorVInvolution(t: Tile, stride: nat)
    requires stride > 0 && |t| % stride == 0
    ensures |MirrorV(t, stride)| % stride == 0
    ensures MirrorV(MirrorV(t, stride), stride) == t
  {
    LengthsMirrored(t, stride);
    var rows := Chunks(t, stride);
    ChunksUniform(t, stride);
    assert Uniform(Reverse(rows), stride);
    ChunksFlatten(Reverse(rows), stride);
    assert Reverse(Reverse(rows)) == rows;
    FlattenChunks(t, stride);
  }

  /** The two mirrors commute, so mirrorV(mirrorH(t)) is the both-axes flip. */
  lemma {:induction false} MirrorsCommute(t: Tile, stride: nat)
    requires stride > 0 && |t| % stride == 0
    ensures |MirroredH(t, stride)| % stride == 0 && |MirrorV(t, stride)| % stride == 0
    ensures MirrorV(MirroredH(t, stride), stride) == MirroredH(MirrorV(t, stride), stride)
  {
    LengthsMirrored(t, stride);
    var rows := Chunks(t, stride);
    ChunksUniform(t, stride);
    assert Uniform(ReverseEach(rows), stride);
    assert Uniform(Reverse(rows), stride);
    ChunksFlatten(ReverseEach(rows), stride);
    ChunksFlatten(Reverse(rows), stride);
    assert Reverse(ReverseEach(rows)) == ReverseEach(Reverse(rows));
  }

  /** Flipping a mirrored candidate by its flags restores the tile: the
      horizontal mirror takes flags 0b01, the vertical one 0b10 and the
      mirrorV(mirrorH(t)) one 0b11. */
  lemma FlipUndoesMirror(t: Tile, stride: nat)
    requires stride > 0 && |t| % stride == 0
    ensures |MirroredH(t, stride)| == |t| && |MirrorV(t, stride)| == |t|
    ensures |MirrorV(MirroredH(t, stride), stride)| == |t|
    ensures Flipped(t, stride, 0) == t
    ensures Flipped(MirroredH(t, stride), stride, 1) == t
    ensures Flipped(MirrorV(t, stride), stride, 2) == t
    ensures Flipped(MirrorV(MirroredH(t, stride), stride), stride, 3) == t
  {
    var h := MirroredH(t, stride);
    LengthsMirrored(t, stride);
    LengthsMirrored(h, stride);
    MirrorHInvolution(t, stride);
    MirrorVInvolution(t, stride);
    var hv := MirrorV(h, stride);
    // Flipped(hv, 3) = V(H(V(H t))) = V(V(H(H t))) = t
    MirrorsCommute(h, stride);
    MirrorVInvolution(MirroredH(h, stride), stride);
  }
}
