/** Shifts, masks and single bits on naturals, as the encoder uses Python's
    `>>`, `&` and `|` on small non-negative integers. */
module Bits {

  function Pow2(n: nat): (p: nat)
    ensures p >= 1
  {
    if n == 0 then 1 else 2 * Pow2(n - 1)
  }

  /** `x >> n` */
  function Shr(x: nat, n: nat): nat
  {
    if n == 0 then x else Shr(x / 2, n - 1)
  }

  /** `(x >> n) & 1` */
  function Bit(x: nat, n: nat): nat
  {
    Shr(x, n) % 2
  }

  /** The first n bits of x, least significant first. */
  function ToBits(x: nat, n: nat): (bs: seq<nat>)
    ensures |bs| == n
  {
    seq(n, i requires 0 <= i < n => Bit(x, i))
  }

  /** The number whose bits, least significant first, are bs. */
  function FromBits(bs: seq<nat>): nat
  {
    if bs == [] then 0 else bs[0] % 2 + 2 * FromBits(bs[1..])
  }

  lemma {:induction false} ShrBound(x: nat, n: nat)
    ensures Shr(x, n) <= x
    ensures x < Pow2(n) ==> Shr(x, n) == 0
  {
    if n > 0 {
      ShrBound(x / 2, n - 1);
    }
  }

  /** Every number below 2^n is recovered from its first n bits. */
  lemma {:induction false} FromToBits(x: nat, n: nat)
    requires x < Pow2(n)
    ensures FromBits(ToBits(x, n)) == x
  {
    if n > 0 {
      var bs := ToBits(x, n);
      assert bs[1..] == ToBits(x / 2, n - 1) by {
        forall i | 0 <= i < n - 1
          ensures bs[1..][i] == Bit(x / 2, i)
        {
          assert bs[1..][i] == Bit(x, i + 1);
        }
      }
      FromToBits(x / 2, n - 1);
      assert bs[0] == x % 2;
    }
  }

  lemma MulMono(a: int, b: int, d: int)
    requires a <= b && d >= 0
    ensures a * d <= b * d
  {
    assert b * d - a * d == (b - a) * d;
  }

  /** Quotient and remainder are unique. */
  lemma DivModUnique(x: int, d: int, q: int, r: int)
    requires d > 0 && 0 <= r < d && x == q * d + r
    ensures x / d == q && x % d == r
  {
    var q' := x / d;
    assert x == q' * d + x % d;
    if q' > q {
      MulMono(q + 1, q', d);
      assert false;
    } else if q' < q {
      MulMono(q' + 1, q, d);
      assert false;
    }
  }
}
