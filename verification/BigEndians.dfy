/** Numbers as byte strings, most significant byte first. */
module BigEndians {
  import opened Bytes

  /** The low k bytes of u, most significant first. */
  function BigEndian(u: nat, k: nat): (b: seq<byte>)
    ensures |b| == k
  {
    if k == 0 then [] else BigEndian(u / 256, k - 1) + [u % 256]
  }

  /** The low k bytes of u, least significant first. */
  function LittleEndian(u: nat, k: nat): (b: seq<byte>)
    ensures |b| == k
  {
    if k == 0 then [] else [u % 256] + LittleEndian(u / 256, k - 1)
  }

  lemma {:induction false} BytesReversed(u: nat, k: nat, i: nat)
    requires i < k
    ensures BigEndian(u, k)[i] == LittleEndian(u, k)[k - 1 - i]
  {
    if i == k - 1 {
    } else {
      BytesReversed(u / 256, k - 1, i);
    }
  }

  /** The two orders agree just when the bytes read the same in both directions. */
  lemma EndiansAgree(u: nat, k: nat)
    ensures BigEndian(u, k) == LittleEndian(u, k) <==> IsPalindrome(LittleEndian(u, k))
  {
    var a, b := BigEndian(u, k), LittleEndian(u, k);
    forall i | 0 <= i < k
      ensures a[i] == b[k - 1 - i]
    {
      BytesReversed(u, k, i);
    }
  }

  predicate IsPalindrome(b: seq<byte>) {
    forall i :: 0 <= i < |b| ==> b[i] == b[|b| - 1 - i]
  }

  function FromBigEndian(b: seq<byte>): nat {
    if b == [] then 0 else 256 * FromBigEndian(b[..|b| - 1]) + b[|b| - 1]
  }

  lemma {:induction false} BigEndianRoundTrip(u: nat, k: nat)
    requires u < Pow256(k)
    ensures FromBigEndian(BigEndian(u, k)) == u
  {
    if k == 0 {
    } else {
      BigEndianRoundTrip(u / 256, k - 1);
      var b := BigEndian(u, k);
      assert b[..|b| - 1] == BigEndian(u / 256, k - 1);
    }
  }

  lemma {:induction false} BytesRoundTrip(b: seq<byte>)
    ensures BigEndian(FromBigEndian(b), |b|) == b
  {
    if b == [] {
    } else {
      BytesRoundTrip(b[..|b| - 1]);
    }
  }

  function Pow256(k: nat): (p: nat)
    ensures k == 0 ==> p == 1
  {
    if k == 0 then 1 else 256 * Pow256(k - 1)
  }

  lemma {:induction false} BigEndianHead(u: nat, k: nat)
    requires k > 0 && u < 128 * Pow256(k - 1)
    ensures BigEndian(u, k)[0] < 128
  {
    if k == 1 {
    } else {
      BigEndianHead(u / 256, k - 1);
    }
  }

  /** u >> (8 * k) */
  function Shifted(u: nat, k: nat): nat {
    if k == 0 then u else Shifted(u, k - 1) / 256
  }

  /** Byte number k of u, counted from the lowest. */
  function ByteOf(u: nat, k: nat): byte {
    Shifted(u, k) % 256
  }

  lemma BigEndianMore(u: nat, k: nat, i: nat)
    ensures BigEndian(Shifted(u, k), i + 1) == BigEndian(Shifted(u, k + 1), i) + [ByteOf(u, k)]
  {
  }
}
