/** Bytes and their bits. */
module Bytes {

  type byte = n: int | 0 <= n < 256

  /** The low len bits of n, least significant first. */
  function BitsOf(n: nat, len: nat): (b: seq<bool>)
    ensures |b| == len
  {
    if len == 0 then [] else [n % 2 == 1] + BitsOf(n / 2, len - 1)
  }

  lemma BitsOfCons(c: bool, n: nat, len: nat)
    ensures BitsOf((if c then 1 else 0) + 2 * n, len + 1) == [c] + BitsOf(n, len)
  {
  }

  /** The number with the given bits, least significant first. */
  function NumberOf(b: seq<bool>): nat {
    if b == [] then 0 else (if b[0] then 1 else 0) + 2 * NumberOf(b[1..])
  }

  function Pow2(k: nat): (p: nat)
    ensures p > 0
  {
    if k == 0 then 1 else 2 * Pow2(k - 1)
  }

  lemma {:induction false} NumberOfBitsOf(n: nat, len: nat)
    requires n < Pow2(len)
    ensures NumberOf(BitsOf(n, len)) == n
  {
    if len == 0 {
    } else {
      NumberOfBitsOf(n / 2, len - 1);
    }
  }

  lemma {:induction false} BitsOfNumberOf(b: seq<bool>)
    ensures NumberOf(b) < Pow2(|b|)
    ensures BitsOf(NumberOf(b), |b|) == b
  {
    if b == [] {
    } else {
      BitsOfNumberOf(b[1..]);
    }
  }

  /** A byte string as a bit string: each byte gives its least significant bit first. */
  function ToBits(m: seq<byte>): (b: seq<bool>)
    ensures |b| == 8 * |m|
  {
    if m == [] then [] else BitsOf(m[0], 8) + ToBits(m[1..])
  }

  lemma {:induction false} ToBitsAppend(a: seq<byte>, b: seq<byte>)
    ensures ToBits(a + b) == ToBits(a) + ToBits(b)
  {
    hide BitsOf;
    if a == [] {
      assert a + b == b;
    } else {
      ToBitsAppend(a[1..], b);
      assert (a + b)[1..] == a[1..] + b && (a + b)[0] == a[0];
      assert BitsOf(a[0], 8) + (ToBits(a[1..]) + ToBits(b)) == BitsOf(a[0], 8) + ToBits(a[1..]) + ToBits(b);
    }
  }

  lemma {:induction false} ToBitsInjective(a: seq<byte>, b: seq<byte>)
    requires ToBits(a) == ToBits(b)
    ensures a == b
  {
    hide BitsOf;
    if a == [] || b == [] {
    } else {
      assert Pow2(8) == 256;
      assert BitsOf(a[0], 8) == ToBits(a)[..8] == ToBits(b)[..8] == BitsOf(b[0], 8);
      NumberOfBitsOf(a[0], 8);
      NumberOfBitsOf(b[0], 8);
      assert ToBits(a[1..]) == ToBits(a)[8..] == ToBits(b)[8..] == ToBits(b[1..]);
      ToBitsInjective(a[1..], b[1..]);
    }
  }
}
