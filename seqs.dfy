/** Sequence helpers for the string slicing and joining the encoder does:
    `"".join(...)`, `reversed(...)` and `[ s[i:i+w] for i in range(0, len(s), w) ]`. */
module Seqs {

  import opened Bits

  /** `"".join(ss)` */
  function Flatten<T>(ss: seq<seq<T>>): seq<T>
  {
    if ss == [] then [] else ss[0] + Flatten(ss[1..])
  }

  /** `reversed(s)` */
  function Reverse<T>(s: seq<T>): (r: seq<T>)
    ensures |r| == |s|
    ensures forall i :: 0 <= i < |s| ==> r[i] == s[|s| - 1 - i]
  {
    if s == [] then [] else Reverse(s[1..]) + [s[0]]
  }

  /** Every row of ss has length w. */
  ghost predicate Uniform<T>(ss: seq<seq<T>>, w: nat)
  {
    forall i :: 0 <= i < |ss| ==> |ss[i]| == w
  }

  /** `[ s[i:i+w] for i in range(0, len(s), w) ]`: consecutive slices of w
      elements, the last one shorter when w does not divide |s|. */
  function Chunks<T>(s: seq<T>, w: nat): seq<seq<T>>
    requires w > 0
    decreases |s|
  {
    if |s| == 0 then []
    else if |s| <= w then [s]
    else [s[..w]] + Chunks(s[w..], w)
  }

  lemma {:induction false} FlattenConcat<T>(a: seq<seq<T>>, b: seq<seq<T>>)
    ensures Flatten(a + b) == Flatten(a) + Flatten(b)
  {
    if a != [] {
      assert (a + b)[1..] == a[1..] + b;
      FlattenConcat(a[1..], b);
    } else {
      assert a + b == b;
    }
  }

  lemma {:induction false} FlattenLength<T>(ss: seq<seq<T>>, w: nat)
    requires Uniform(ss, w)
    ensures |Flatten(ss)| == |ss| * w
  {
    if ss != [] {
      FlattenLength(ss[1..], w);
    }
  }

  /** Element i of row j of a uniform sequence of rows sits at j*w + i once
      the rows are joined. */
  lemma {:induction false} FlattenIndex<T>(ss: seq<seq<T>>, w: nat, j: nat, i: nat)
    requires Uniform(ss, w) && j < |ss| && i < w
    ensures |Flatten(ss)| == |ss| * w
    ensures j * w + i < |Flatten(ss)| && Flatten(ss)[j * w + i] == ss[j][i]
  {
    FlattenLength(ss, w);
    if j > 0 {
      FlattenIndex(ss[1..], w, j - 1, i);
      assert j * w + i == w + ((j - 1) * w + i);
    }
  }

  /** When the rows before row j all have length w, element i of row j sits
      at j*w + i once the rows are joined, whatever the later rows are. */
  lemma {:induction false} FlattenPrefixIndex<T>(ss: seq<seq<T>>, w: nat, j: nat, i: nat)
    requires j < |ss| && i < |ss[j]|
    requires forall m :: 0 <= m < j ==> |ss[m]| == w
    ensures j * w + i < |Flatten(ss)| && Flatten(ss)[j * w + i] == ss[j][i]
  {
    if j > 0 {
      FlattenPrefixIndex(ss[1..], w, j - 1, i);
      assert j * w + i == w + ((j - 1) * w + i);
    }
  }

  /** A proper prefix extended by the next element is still a prefix. */
  lemma PrefixExtend<T>(p: seq<T>, s: seq<T>)
    requires p <= s && |p| < |s|
    ensures p + [s[|p|]] <= s
  {
    assert p + [s[|p|]] == s[..|p| + 1];
  }

  lemma ModSub(n: nat, w: nat)
    requires 0 < w <= n
    ensures (n - w) % w == n % w
  {
    var q, r := n / w, n % w;
    assert n - w == (q - 1) * w + r;
    DivModUnique(n - w, w, q - 1, r);
  }

  /** Joining the slices gives back the sequence. */
  lemma {:induction false} FlattenChunks<T>(s: seq<T>, w: nat)
    requires w > 0
    ensures Flatten(Chunks(s, w)) == s
    decreases |s|
  {
    if |s| > w {
      FlattenChunks(s[w..], w);
      assert Chunks(s, w)[1..] == Chunks(s[w..], w);
    }
  }

  /** When w divides |s| every slice is a full row. */
  lemma {:induction false} ChunksUniform<T>(s: seq<T>, w: nat)
    requires w > 0 && |s| % w == 0
    ensures Uniform(Chunks(s, w), w)
    decreases |s|
  {
    if |s| > w {
      ModSub(|s|, w);
      ChunksUniform(s[w..], w);
      assert Chunks(s, w)[1..] == Chunks(s[w..], w);
    }
  }

  /** Slicing joined full rows gives back the rows. */
  lemma {:induction false} ChunksFlatten<T>(ss: seq<seq<T>>, w: nat)
    requires w > 0 && Uniform(ss, w)
    ensures Chunks(Flatten(ss), w) == ss
  {
    if ss != [] {
      FlattenLength(ss[1..], w);
      ChunksFlatten(ss[1..], w);
      var f := Flatten(ss);
      assert f[..w] == ss[0];
      assert f[w..] == Flatten(ss[1..]);
      if ss[1..] == [] {
        assert f == ss[0];
      } else {
        assert |Flatten(ss[1..])| > 0;
      }
    }
  }

  lemma ReverseReverse<T>(s: seq<T>)
    ensures Reverse(Reverse(s)) == s
  {
    assert forall i :: 0 <= i < |s| ==> Reverse(Reverse(s))[i] == s[i];
  }
}
