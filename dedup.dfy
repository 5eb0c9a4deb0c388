/** Mirror-aware deduplication: the canonical tile store (rawTiles and the
    dictionary optimizedTileIndex) and the (tileIndex, flipFlags) part of each
    tile-map entry. */
module Dedup {

  import opened Types
  import opened Mirror

  /** The (tileIndex, flipFlags) that a cell refers to. */
  datatype Ref = Ref(index: nat, flip: nat)

  /** rawTiles and optimizedTileIndex. */
  datatype Store = Store(tiles: seq<Tile>, index: map<Tile, nat>)

  /** What a cell's tile is stored as once the store already has it and the
      cell refers to it with flip flags f. */
  function Candidate(t: Tile, stride: nat, f: nat): Tile
    requires stride > 0 && |t| % stride == 0 && f < 4
  {
    if f == 0 then t
    else if f == 1 then MirroredH(t, stride)
    else if f == 2 then MirrorV(t, stride)
    else (LengthsMirrored(t, stride); MirrorV(MirroredH(t, stride), stride))
  }

  /** The search of an existing tile for a new one: the mirrored candidates
      in the order H, V, HV (only with mirror optimisation), after which an
      exact match, if any, wins. */
  function Match(index: map<Tile, nat>, t: Tile, stride: nat, mirrors: bool): (r: Option<Ref>)
    requires stride > 0 && |t| % stride == 0
    ensures t in index ==> r == Some(Ref(index[t], 0))
    ensures r.None? <==>
      t !in index && (!mirrors || forall f :: 1 <= f < 4 ==> Candidate(t, stride, f) !in index)
    ensures r.Some? ==>
      r.value.flip < 4 && (!mirrors ==> r.value.flip == 0) &&
      Candidate(t, stride, r.value.flip) in index &&
      index[Candidate(t, stride, r.value.flip)] == r.value.index &&
      (r.value.flip != 0 ==> t !in index) &&
      forall f :: 1 <= f < r.value.flip ==> Candidate(t, stride, f) !in index
  {
    var h := MirroredH(t, stride);
    LengthsMirrored(t, stride);
    var v := MirrorV(t, stride);
    var hv := MirrorV(h, stride);
    assert Candidate(t, stride, 1) == h && Candidate(t, stride, 2) == v && Candidate(t, stride, 3) == hv;
    var mirrored :=
      if !mirrors then None
      else if h in index then Some(Ref(index[h], 1))
      else if v in index then Some(Ref(index[v], 2))
      else if hv in index then Some(Ref(index[hv], 3))
      else None;
    if t in index then Some(Ref(index[t], 0)) else mirrored
  }

  /** The candidate loop: tries rawTileH, rawTileV, rawTileHV with flags
      0b01, 0b10, 0b11 and stops at the first one in the index; then an exact
      hit overrides with flags 0. */
  method Lookup(index: map<Tile, nat>, t: Tile, stride: nat, mirrors: bool,
                rawTileH: Tile, rawTileV: Tile, rawTileHV: Tile)
    returns (canOptimize: bool, tileIndex: nat, flipFlags: nat)
    requires stride > 0 && |t| % stride == 0
    requires rawTileH == MirroredH(t, stride) && |rawTileH| == |t|
    requires rawTileV == MirrorV(t, stride)
    requires rawTileHV == MirrorV(rawTileH, stride)
    ensures canOptimize <==> Match(index, t, stride, mirrors).Some?
    ensures canOptimize ==> Match(index, t, stride, mirrors) == Some(Ref(tileIndex, flipFlags))
    ensures !canOptimize ==> flipFlags == 0
  {
    canOptimize, tileIndex, flipFlags := false, 0, 0;
    if mirrors {
      var candidates := [rawTileH, rawTileV, rawTileHV];
      var flags := [0x1, 0x2, 0x3];
      var c := 0;
      while c < 3
        invariant 0 <= c <= 3
        invariant !canOptimize && flipFlags == 0
        invariant forall f :: 1 <= f <= c ==> Candidate(t, stride, f) !in index
      {
        assert candidates[c] == Candidate(t, stride, flags[c]);
        if candidates[c] in index {
          canOptimize, flipFlags := true, flags[c];
          tileIndex := index[candidates[c]];
          break;
        }
        c := c + 1;
      }
    }
    if t in index {
      canOptimize, flipFlags := true, 0;
      tileIndex := index[t];
    }
  }

  /** One cell of the loop: with duplicate optimisation off the tile is
      always appended and referred to by its cell position; with it on, a
      match is reused and a miss is appended at the end of the store. */
  function Place(s: Store, t: Tile, pos: nat, stride: nat, dupes: bool, mirrors: bool): (r: (Store, Ref))
    requires stride > 0 && |t| % stride == 0
    ensures r.0.tiles == s.tiles || r.0.tiles == s.tiles + [t]
    ensures !dupes ==> r.0.tiles == s.tiles + [t] && r.0.index == s.index && r.1 == Ref(pos, 0)
    ensures dupes ==> (r.0.tiles == s.tiles <==> Match(s.index, t, stride, mirrors).Some?)
    ensures dupes && r.0.tiles == s.tiles ==> r == (s, Match(s.index, t, stride, mirrors).value)
    ensures dupes && r.0.tiles != s.tiles ==>
      r.0.index == s.index[t := |s.tiles|] && r.1 == Ref(|s.tiles|, 0)
  {
    if !dupes then (Store(s.tiles + [t], s.index), Ref(pos, 0))
    else match Match(s.index, t, stride, mirrors)
      case Some(ref) => (s, ref)
      case None => (Store(s.tiles + [t], s.index[t := |s.tiles|]), Ref(|s.tiles|, 0))
  }

  /** Every tile has a whole number of rows. */
  ghost predicate Shaped(ts: seq<Tile>, stride: nat)
  {
    stride > 0 && forall k :: 0 <= k < |ts| ==> |ts[k]| % stride == 0
  }

  /** The store and tile map after the cells ts, in order; cell k has
      position k. */
  function DedupAll(ts: seq<Tile>, stride: nat, dupes: bool, mirrors: bool): (r: (Store, seq<Ref>))
    requires Shaped(ts, stride)
    ensures |r.1| == |ts|
  {
    if ts == [] then (Store([], map[]), [])
    else
      var prev := DedupAll(ts[..|ts| - 1], stride, dupes, mirrors);
      var step := Place(prev.0, ts[|ts| - 1], |ts| - 1, stride, dupes, mirrors);
      (step.0, prev.1 + [step.1])
  }

  /** DedupAll of one more cell is one more Place. */
  lemma DedupAllSnoc(ts: seq<Tile>, t: Tile, stride: nat, dupes: bool, mirrors: bool)
    requires Shaped(ts, stride) && |t| % stride == 0
    ensures Shaped(ts + [t], stride)
    ensures var prev := DedupAll(ts, stride, dupes, mirrors);
            var step := Place(prev.0, t, |ts|, stride, dupes, mirrors);
            DedupAll(ts + [t], stride, dupes, mirrors) == (step.0, prev.1 + [step.1])
  {
    assert (ts + [t])[..|ts|] == ts;
  }

  // ---------------------------------------------------------------------
  // Invariants of the store

  /** The dictionary maps each stored tile to its position and nothing else. */
  ghost predicate IndexValid(s: Store)
  {
    && (forall p :: 0 <= p < |s.tiles| ==> s.tiles[p] in s.index && s.index[s.tiles[p]] == p)
    && (forall key :: key in s.index ==> s.index[key] < |s.tiles| && s.tiles[s.index[key]] == key)
  }

  /** Cell k's reference brings back its tile. */
  ghost predicate Reconstructs(s: Store, ts: seq<Tile>, refs: seq<Ref>, stride: nat)
    requires Shaped(s.tiles, stride)
  {
    |refs| == |ts| &&
    forall k :: 0 <= k < |ts| ==>
      refs[k].index < |s.tiles| && refs[k].flip < 4 &&
      Flipped(s.tiles[refs[k].index], stride, refs[k].flip) == ts[k]
  }

  /** Each cell's tile, or (with mirror optimisation) one of its mirrors, is
      in the dictionary. */
  ghost predicate Covered(s: Store, ts: seq<Tile>, stride: nat, mirrors: bool)
    requires Shaped(ts, stride)
  {
    forall k :: 0 <= k < |ts| ==>
      ts[k] in s.index ||
      (mirrors && exists f :: 1 <= f < 4 && Candidate(ts[k], stride, f) in s.index)
  }

  /** A cell whose tile is stored refers to it unflipped. */
  ghost predicate ExactWins(s: Store, ts: seq<Tile>, refs: seq<Ref>)
    requires |refs| == |ts|
  {
    forall k :: 0 <= k < |ts| && ts[k] in s.index ==> refs[k] == Ref(s.index[ts[k]], 0)
  }

  /** No stored tile is a mirror image of an earlier one. */
  ghost predicate MirrorFree(s: Store, stride: nat)
    requires Shaped(s.tiles, stride)
  {
    forall p, q, f :: 0 <= p < q < |s.tiles| && 1 <= f < 4 ==>
      Candidate(s.tiles[q], stride, f) != s.tiles[p]
  }

  ghost predicate Invariant(s: Store, ts: seq<Tile>, refs: seq<Ref>, stride: nat, dupes: bool, mirrors: bool)
    requires Shaped(ts, stride)
  {
    && Shaped(s.tiles, stride)
    && Reconstructs(s, ts, refs, stride)
    && (!dupes ==> s.tiles == ts && s.index == map[] &&
                   forall k :: 0 <= k < |ts| ==> refs[k] == Ref(k, 0))
    && (dupes ==>
        && IndexValid(s)
        && |s.tiles| <= |ts|
        && (forall p :: 0 <= p < |s.tiles| ==> s.tiles[p] in ts)
        && Covered(s, ts, stride, mirrors)
        && ExactWins(s, ts, refs)
        && (!mirrors ==> forall k :: 0 <= k < |ts| ==> refs[k].flip == 0)
        && (mirrors ==> MirrorFree(s, stride)))
  }

  lemma FlippedCandidate(t: Tile, stride: nat, f: nat)
    requires stride > 0 && |t| % stride == 0 && f < 4
    ensures |Candidate(t, stride, f)| == |t|
    ensures Flipped(Candidate(t, stride, f), stride, f) == t
  {
    FlipUndoesMirror(t, stride);
    var h := MirroredH(t, stride);
    if f == 0 {
      assert Candidate(t, stride, f) == t;
    } else if f == 1 {
      assert Candidate(t, stride, f) == h;
    } else if f == 2 {
      assert Candidate(t, stride, f) == MirrorV(t, stride);
    } else {
      assert Candidate(t, stride, f) == MirrorV(h, stride);
    }
  }

  /** Appending an unmatched tile keeps every earlier reference and makes
      the new cell refer to it unflipped. */
  lemma MissReconstructs(s: Store, ts: seq<Tile>, refs: seq<Ref>, t: Tile, stride: nat)
    requires Shaped(ts, stride) && Shaped(s.tiles, stride) && |t| % stride == 0
    requires Reconstructs(s, ts, refs, stride)
    ensures Shaped(s.tiles + [t], stride)
    ensures Reconstructs(Store(s.tiles + [t], s.index[t := |s.tiles|]), ts + [t], refs + [Ref(|s.tiles|, 0)], stride)
  {
    var n := |s.tiles|;
    var s' := Store(s.tiles + [t], s.index[t := n]);
    var ts', refs' := ts + [t], refs + [Ref(n, 0)];
    assert Shaped(s'.tiles, stride);
    forall k | 0 <= k < |ts'|
      ensures refs'[k].index < |s'.tiles| && refs'[k].flip < 4
      ensures Flipped(s'.tiles[refs'[k].index], stride, refs'[k].flip) == ts'[k]
    {
      if k == |ts| {
        FlippedCandidate(t, stride, 0);
      } else {
        assert refs'[k] == refs[k] && ts'[k] == ts[k];
        assert s'.tiles[refs[k].index] == s.tiles[refs[k].index];
      }
    }
  }

  /** A tile none of whose mirrors is stored is no mirror of a stored tile. */
  lemma MissMirrorFree(s: Store, t: Tile, stride: nat)
    requires Shaped(s.tiles, stride) && |t| % stride == 0
    requires IndexValid(s) && MirrorFree(s, stride)
    requires forall f :: 1 <= f < 4 ==> Candidate(t, stride, f) !in s.index
    ensures Shaped(s.tiles + [t], stride)
    ensures MirrorFree(Store(s.tiles + [t], s.index[t := |s.tiles|]), stride)
  {
    var n := |s.tiles|;
    var s' := Store(s.tiles + [t], s.index[t := n]);
    assert Shaped(s'.tiles, stride);
    forall p, q, f | 0 <= p < q < |s'.tiles| && 1 <= f < 4
      ensures Candidate(s'.tiles[q], stride, f) != s'.tiles[p]
    {
      if q == n {
        assert s'.tiles[p] in s.index;
      } else {
        assert s'.tiles[q] == s.tiles[q] && s'.tiles[p] == s.tiles[p];
      }
    }
  }

  /** Appending an unmatched tile keeps the invariant. */
  lemma PlaceMiss(s: Store, ts: seq<Tile>, refs: seq<Ref>, t: Tile, stride: nat, mirrors: bool)
    requires Shaped(ts, stride) && |t| % stride == 0
    requires Invariant(s, ts, refs, stride, true, mirrors)
    requires Match(s.index, t, stride, mirrors).None?
    ensures Shaped(ts + [t], stride)
    ensures Invariant(Store(s.tiles + [t], s.index[t := |s.tiles|]), ts + [t], refs + [Ref(|s.tiles|, 0)],
                      stride, true, mirrors)
  {
    var n := |s.tiles|;
    var s' := Store(s.tiles + [t], s.index[t := n]);
    var ts', refs' := ts + [t], refs + [Ref(n, 0)];
    assert Shaped(ts', stride);
    MissReconstructs(s, ts, refs, t, stride);
    assert IndexValid(s');
    forall p | 0 <= p < |s'.tiles|
      ensures s'.tiles[p] in ts'
    {
      if p < n {
        assert s.tiles[p] in ts;
      }
    }
    // t is not yet among the earlier cells: each of those is covered, and t's
    // own mirrors are all absent from the dictionary.
    assert forall k :: 0 <= k < |ts| ==> ts[k] != t;
    assert ExactWins(s', ts', refs');
    assert Covered(s', ts', stride, mirrors);
    if mirrors {
      MissMirrorFree(s, t, stride);
    }
  }

  /** Referring to a stored candidate with its flags adds a cell that is
      brought back. */
  lemma HitReconstructs(s: Store, ts: seq<Tile>, refs: seq<Ref>, t: Tile, stride: nat, ref: Ref)
    requires Shaped(ts, stride) && Shaped(s.tiles, stride) && |t| % stride == 0
    requires Reconstructs(s, ts, refs, stride) && IndexValid(s)
    requires ref.flip < 4 && Candidate(t, stride, ref.flip) in s.index
    requires s.index[Candidate(t, stride, ref.flip)] == ref.index
    ensures Reconstructs(s, ts + [t], refs + [ref], stride)
  {
    var ts', refs' := ts + [t], refs + [ref];
    FlippedCandidate(t, stride, ref.flip);
    assert s.tiles[ref.index] == Candidate(t, stride, ref.flip);
    forall k | 0 <= k < |ts'|
      ensures refs'[k].index < |s.tiles| && refs'[k].flip < 4
      ensures Flipped(s.tiles[refs'[k].index], stride, refs'[k].flip) == ts'[k]
    {
      if k < |ts| {
        assert refs'[k] == refs[k] && ts'[k] == ts[k];
      }
    }
  }

  /** Reusing a matched tile keeps the invariant. */
  lemma PlaceHit(s: Store, ts: seq<Tile>, refs: seq<Ref>, t: Tile, stride: nat, mirrors: bool)
    requires Shaped(ts, stride) && |t| % stride == 0
    requires Invariant(s, ts, refs, stride, true, mirrors)
    requires Match(s.index, t, stride, mirrors).Some?
    ensures Shaped(ts + [t], stride)
    ensures Invariant(s, ts + [t], refs + [Match(s.index, t, stride, mirrors).value], stride, true, mirrors)
  {
    var ref := Match(s.index, t, stride, mirrors).value;
    var ts', refs' := ts + [t], refs + [ref];
    assert Shaped(ts', stride);
    HitReconstructs(s, ts, refs, t, stride, ref);
    assert ExactWins(s, ts', refs');
    assert Covered(s, ts', stride, mirrors) by {
      if t !in s.index {
        assert Candidate(t, stride, ref.flip) in s.index;
      }
    }
    assert forall p :: 0 <= p < |s.tiles| ==> s.tiles[p] in ts';
  }

  /** Without duplicate optimisation the store is the cells themselves. */
  lemma PlaceAppend(s: Store, ts: seq<Tile>, refs: seq<Ref>, t: Tile, stride: nat, mirrors: bool)
    requires Shaped(ts, stride) && |t| % stride == 0
    requires Invariant(s, ts, refs, stride, false, mirrors)
    ensures Shaped(ts + [t], stride)
    ensures Invariant(Store(s.tiles + [t], s.index), ts + [t], refs + [Ref(|ts|, 0)], stride, false, mirrors)
  {
    var ts', refs' := ts + [t], refs + [Ref(|ts|, 0)];
    assert Shaped(ts', stride);
    FlippedCandidate(t, stride, 0);
    assert Reconstructs(Store(s.tiles + [t], s.index), ts', refs', stride);
  }

  lemma PlaceKeeps(s: Store, ts: seq<Tile>, refs: seq<Ref>, t: Tile, stride: nat, dupes: bool, mirrors: bool)
    requires Shaped(ts, stride) && |t| % stride == 0
    requires Invariant(s, ts, refs, stride, dupes, mirrors)
    ensures Shaped(ts + [t], stride)
    ensures var r := Place(s, t, |ts|, stride, dupes, mirrors);
            Invariant(r.0, ts + [t], refs + [r.1], stride, dupes, mirrors)
  {
    if !dupes {
      PlaceAppend(s, ts, refs, t, stride, mirrors);
    } else if Match(s.index, t, stride, mirrors).Some? {
      PlaceHit(s, ts, refs, t, stride, mirrors);
    } else {
      PlaceMiss(s, ts, refs, t, stride, mirrors);
    }
  }

  lemma {:induction false} DedupAllInvariant(ts: seq<Tile>, stride: nat, dupes: bool, mirrors: bool)
    requires Shaped(ts, stride)
    ensures var r := DedupAll(ts, stride, dupes, mirrors);
            Invariant(r.0, ts, r.1, stride, dupes, mirrors)
  {
    if ts != [] {
      var init, last := ts[..|ts| - 1], ts[|ts| - 1];
      assert init + [last] == ts;
      assert Shaped(init, stride);
      DedupAllInvariant(init, stride, dupes, mirrors);
      var prev := DedupAll(init, stride, dupes, mirrors);
      PlaceKeeps(prev.0, init, prev.1, last, stride, dupes, mirrors);
    }
  }

  /** What the deduplicated store and map promise: every cell refers to a
      stored tile that, flipped by the cell's flags, is the cell's tile; with
      duplicate optimisation off the store is the cells and each index is the
      cell position; with it on the stored tiles are pairwise distinct and
      exactly the dictionary's keys, an exactly stored tile is always referred
      to unflipped, and (with mirror optimisation) no stored tile is a mirror
      of an earlier one. */
  lemma DedupAllProperties(ts: seq<Tile>, stride: nat, dupes: bool, mirrors: bool)
    requires Shaped(ts, stride)
    ensures var (s, refs) := DedupAll(ts, stride, dupes, mirrors);
      && |refs| == |ts|
      && Shaped(s.tiles, stride)
      && (forall p :: 0 <= p < |s.tiles| ==> s.tiles[p] in ts)
      && (forall k :: 0 <= k < |ts| ==>
            refs[k].index < |s.tiles| && refs[k].flip < 4 &&
            Flipped(s.tiles[refs[k].index], stride, refs[k].flip) == ts[k])
      && (!dupes ==> s.tiles == ts && forall k :: 0 <= k < |ts| ==> refs[k] == Ref(k, 0))
      && (dupes ==>
          && |s.tiles| <= |ts|
          && (forall p, q :: 0 <= p < q < |s.tiles| ==> s.tiles[p] != s.tiles[q])
          && s.index.Keys == (set p | 0 <= p < |s.tiles| :: s.tiles[p])
          && (forall p :: 0 <= p < |s.tiles| ==> s.index[s.tiles[p]] == p)
          && (forall k, p :: 0 <= k < |ts| && 0 <= p < |s.tiles| && ts[k] == s.tiles[p] ==>
                refs[k] == Ref(p, 0))
          && (!mirrors ==> forall k :: 0 <= k < |ts| ==> refs[k].flip == 0)
          && (mirrors ==> forall p, q, f :: 0 <= p < q < |s.tiles| && 1 <= f < 4 ==>
                Candidate(s.tiles[q], stride, f) != s.tiles[p]))
  {
    DedupAllInvariant(ts, stride, dupes, mirrors);
    var (s, refs) := DedupAll(ts, stride, dupes, mirrors);
    if dupes {
      forall p, q | 0 <= p < q < |s.tiles|
        ensures s.tiles[p] != s.tiles[q]
      {
        assert s.index[s.tiles[p]] == p && s.index[s.tiles[q]] == q;
      }
      assert s.index.Keys == set p | 0 <= p < |s.tiles| :: s.tiles[p];
    }
  }
}
