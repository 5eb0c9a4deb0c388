/** The mode 7 (.mo7) stream: tile-map indices and character bytes
    interleaved as one 16-bit word apiece. */
module Mode7 {

  import opened Types
  import opened Bits
  import opened Seqs

  /** Every tile-map index fits in a byte (the assert of the .mo7 loop). */
  ghost predicate ByteIndices(tilemap: seq<Entry>)
  {
    forall k :: 0 <= k < |tilemap| ==> tilemap[k].index <= 255
  }

  /** Word i of the stream: the map index in the low byte and the character
      byte in the high byte, either 0 when its sequence has ended. */
  function Mode7Word(tilemap: seq<Entry>, flat: seq<Byte>, i: nat): (w: Word)
    requires i < |tilemap| ==> tilemap[i].index <= 255
    ensures w % 256 == (if i < |tilemap| then tilemap[i].index else 0)
    ensures w / 256 == (if i < |flat| then flat[i] else 0)
  {
    var lo := if i < |tilemap| then tilemap[i].index else 0;
    var hi: nat := if i < |flat| then flat[i] else 0;
    DivModUnique(hi * 256 + lo, 256, hi, lo);
    hi * 256 + lo
  }

  /** The whole stream: max(len(flat), len(tilemap)) words. */
  function Mode7Words(tilemap: seq<Entry>, flat: seq<Byte>): (words: seq<Word>)
    requires ByteIndices(tilemap)
    ensures |words| == (if |flat| < |tilemap| then |tilemap| else |flat|)
    ensures forall i :: 0 <= i < |words| ==>
      words[i] % 256 == (if i < |tilemap| then tilemap[i].index else 0) &&
      words[i] / 256 == (if i < |flat| then flat[i] else 0)
  {
    var n := if |flat| < |tilemap| then |tilemap| else |flat|;
    seq(n, i requires 0 <= i < n => Mode7Word(tilemap, flat, i))
  }

  /** The .mo7 loop over max(len(flat), len(tilemap)) words; None when the
      loop's assert stops it at an index above 255. */
  method Mode7Stream(rawTiles: seq<Tile>, tilemap: seq<Entry>) returns (r: Option<seq<Word>>)
    ensures r.Some? <==> ByteIndices(tilemap)
    ensures r.Some? ==> r.value == Mode7Words(tilemap, Flatten(rawTiles))
  {
    var flat := Flatten(rawTiles);
    var numEntries := if |flat| < |tilemap| then |tilemap| else |flat|;
    var words := [];
    for i := 0 to numEntries
      invariant |words| == i
      invariant forall m :: 0 <= m < i && m < |tilemap| ==> tilemap[m].index <= 255
      invariant forall m :: 0 <= m < i ==> words[m] == Mode7Word(tilemap, flat, m)
    {
      var data: nat := 0;
      if i < |tilemap| {
        var index := tilemap[i].index;
        if index > 255 {
          return None;
        }
        data := data + index;
      }
      if i < |flat| {
        data := data + (flat[i] as nat) * 256;
      }
      words := words + [data];
    }
    return Some(words);
  }
}
