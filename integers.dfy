/** Fixed-width integers as bytes: a reference definition of the value a run of
    bytes denotes in either byte order, signed or not, and the encoder that
    inverts it.
 */
module Integers {
  import opened ParserStates

  /** 256^k: the number of values k bytes can hold. */
  function Pow256(k: nat): (r: nat)
    ensures r >= 1
  {
    if k == 0 then 1 else 256 * Pow256(k - 1)
  }

  /** Little-endian base-256 value: the first byte is the least significant. */
  function FromLE(bs: seq<byte>): nat {
    if bs == [] then 0 else bs[0] + 256 * FromLE(bs[1..])
  }

  /** Big-endian base-256 value: the last byte is the least significant. */
  function FromBE(bs: seq<byte>): nat {
    if bs == [] then 0 else 256 * FromBE(bs[..|bs| - 1]) + bs[|bs| - 1]
  }

  /** Two's-complement reading of a k-byte unsigned value. */
  function ToSigned(u: int, k: nat): int {
    if u >= Pow256(k) / 2 then u - Pow256(k) else u
  }

  /** The k-byte unsigned value whose two's-complement reading is v. */
  function FromSigned(v: int, k: nat): int {
    if v < 0 then v + Pow256(k) else v
  }

  /** k little-endian bytes of n (n taken modulo 256^k). */
  function ToLE(n: nat, k: nat): (bs: seq<byte>)
    ensures |bs| == k
  {
    if k == 0 then [] else [n % 256] + ToLE(n / 256, k - 1)
  }

  /** k big-endian bytes of n (n taken modulo 256^k). */
  function ToBE(n: nat, k: nat): (bs: seq<byte>)
    ensures |bs| == k
  {
    if k == 0 then [] else ToBE(n / 256, k - 1) + [n % 256]
  }

  lemma {:induction false} FromLEBound(bs: seq<byte>)
    ensures FromLE(bs) < Pow256(|bs|)
  {
    if bs != [] {
      FromLEBound(bs[1..]);
    }
  }

  lemma {:induction false} FromBEBound(bs: seq<byte>)
    ensures FromBE(bs) < Pow256(|bs|)
  {
    if bs != [] {
      FromBEBound(bs[..|bs| - 1]);
    }
  }

  lemma {:induction false} FromLEToLE(n: nat, k: nat)
    requires n < Pow256(k)
    ensures FromLE(ToLE(n, k)) == n
  {
    if k > 0 {
      FromLEToLE(n / 256, k - 1);
      assert ToLE(n, k)[1..] == ToLE(n / 256, k - 1);
    }
  }

  lemma {:induction false} FromBEToBE(n: nat, k: nat)
    requires n < Pow256(k)
    ensures FromBE(ToBE(n, k)) == n
  {
    if k > 0 {
      FromBEToBE(n / 256, k - 1);
      assert ToBE(n, k)[..k - 1] == ToBE(n / 256, k - 1);
    }
  }

  lemma {:induction false} ToLEFromLE(bs: seq<byte>)
    ensures ToLE(FromLE(bs), |bs|) == bs
  {
    if bs != [] {
      ToLEFromLE(bs[1..]);
      var n := FromLE(bs);
      assert n % 256 == bs[0] && n / 256 == FromLE(bs[1..]);
    }
  }

  lemma {:induction false} ToBEFromBE(bs: seq<byte>)
    ensures ToBE(FromBE(bs), |bs|) == bs
  {
    if bs != [] {
      var init := bs[..|bs| - 1];
      ToBEFromBE(init);
      var n := FromBE(bs);
      assert n % 256 == bs[|bs| - 1] && n / 256 == FromBE(init);
      assert bs == init + [bs[|bs| - 1]];
    }
  }

  /** Two's-complement reading and writing are inverse on the k-byte ranges. */
  lemma SignedRoundTrip(u: int, v: int, k: nat)
    requires k >= 1
    ensures 0 <= u < Pow256(k) ==>
      -(Pow256(k) / 2) <= ToSigned(u, k) < Pow256(k) / 2 && FromSigned(ToSigned(u, k), k) == u
    ensures -(Pow256(k) / 2) <= v < Pow256(k) / 2 ==>
      0 <= FromSigned(v, k) < Pow256(k) && ToSigned(FromSigned(v, k), k) == v
  {
    assert Pow256(k) == 256 * Pow256(k - 1);
  }
}
