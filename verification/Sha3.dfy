/**
 * The streaming SHA-3 context of the shell: SHA3Init, SHA3Update with its word path and its
 * byte path, SHA3Final, and the sha3(X, SIZE) function, against the sponge of FIPS 202.
 */
module Sha3Hash {
  import opened Bytes
  import opened RoundConstants
  import opened Remainders
  import opened Keccak
  import opened Sponge
  import opened Options

  /** SHA3_BYTEORDER: fixed at compile time, or found out when a context is set up. */
  datatype ByteOrder = Little | Big | Detected(bigEndian: bool)

  function IxMask(order: ByteOrder): nat {
    if order.Big? || (order.Detected? && order.bigEndian) then 7 else 0
  }

  /** n ^ mask for the two masks in use. */
  function Masked(n: nat, mask: nat): nat {
    if mask == 7 then n - n % 8 + (7 - n % 8) else n
  }

  /** Which byte of its lane, counted from the least significant, memory address m holds. */
  function Significance(order: ByteOrder, m: nat): (k: nat)
    ensures k < 8
  {
    if IxMask(order) == 7 then 7 - m % 8 else m % 8
  }

  /** The union of 200 words and 1600 bytes, read at byte address m. */
  function MemoryByte(s: seq<Lane>, order: ByteOrder, m: nat): (v: seq<bool>)
    requires m < 8 * |s|
    ensures |v| == 8
  {
    var k := Significance(order, m);
    s[m / 8].b[8 * k..8 * k + 8]
  }

  function WithByte(a: Lane, k: nat, v: seq<bool>): Lane
    requires k < 8 && |v| == 8
  {
    Bits(a.b[..8 * k] + v + a.b[8 * k + 8..])
  }

  /** A 64-bit load of eight bytes on a little-endian machine. */
  function LoadWord(d: seq<byte>): Lane
    requires |d| == 8
  {
    Bits(ToBits(d))
  }

  // ----- lanes and the string they spell

  lemma {:induction false} FlatUpdate(s: seq<Lane>, i: nat, a: Lane, p: nat, b: seq<bool>)
    requires i < |s| && p + |b| <= 64 && a.b == XorAt(s[i].b, p, b)
    ensures Flat(s[i := a]) == XorAt(Flat(s), 64 * i + p, b)
  {
    hide XorAt;
    if i == 0 {
      assert s[0 := a][1..] == s[1..];
      XorInFront(s[0].b, Flat(s[1..]), p, b);
    } else {
      FlatUpdate(s[1..], i - 1, a, p, b);
      assert s[i := a][1..] == s[1..][i - 1 := a];
      XorBehind(s[0].b, Flat(s[1..]), 64 * (i - 1) + p, b);
    }
  }

  lemma XorInFront(a: seq<bool>, tail: seq<bool>, p: nat, b: seq<bool>)
    requires p + |b| <= |a|
    ensures XorAt(a + tail, p, b) == XorAt(a, p, b) + tail
  {
  }

  lemma XorBehind(head: seq<bool>, a: seq<bool>, p: nat, b: seq<bool>)
    requires p + |b| <= |a|
    ensures XorAt(head + a, |head| + p, b) == head + XorAt(a, p, b)
  {
  }

  lemma ByteXor(a: Lane, k: nat, v: seq<bool>)
    requires k < 8 && |v| == 8
    ensures WithByte(a, k, XorBits(a.b[8 * k..8 * k + 8], v)).b == XorAt(a.b, 8 * k, v)
  {
  }

  lemma WordXor(a: Lane, v: seq<bool>)
    requires |v| == 64
    ensures Xor(a, Bits(v)).b == XorAt(a.b, 0, v)
  {
  }

  // ----- one step of absorbing

  lemma BitPhase(n: nat, rate: nat)
    requires rate > 0
    ensures (8 * n) % (8 * rate) == 8 * (n % rate)
  {
    Division(n, rate);
    assert (n / rate) * (8 * rate) == 8 * ((n / rate) * rate);
    RemainderUnique(8 * n, n / rate, 8 * rate, 8 * (n % rate));
  }

  /** What absorbing piece d does to the state string and to the fill level. */
  lemma Absorbed(msg: seq<byte>, d: seq<byte>, rate: nat, before: StateString, after: StateString)
    requires 0 < rate <= 200 && d != [] && |msg| % rate + |d| <= rate
    requires before == AbsorbPartial(Zeros(1600), ToBits(msg), 8 * rate)
    requires after == XorAt(before, 8 * (|msg| % rate), ToBits(d))
    ensures var full := |msg| % rate + |d| == rate;
            && |msg + d| % rate == (if full then 0 else |msg| % rate + |d|)
            && AbsorbPartial(Zeros(1600), ToBits(msg + d), 8 * rate) == if full then KeccakP(after) else after
  {
    hide AbsorbPartial, KeccakP, XorAt;
    BitPhase(|msg|, rate);
    ToBitsAppend(msg, d);
    AbsorbPiece(Zeros(1600), ToBits(msg), ToBits(d), 8 * rate);
    RemainderMore(|msg|, |d|, rate);
  }

  lemma WordFits(n: nat, rate: nat)
    requires n < rate && n % 8 == 0 && rate % 8 == 0
    ensures n + 8 <= rate && 64 * (n / 8) == 8 * n && (n + 8) % 8 == 0
  {
  }

  function ReadMemory(s: seq<Lane>, order: ByteOrder, m: nat, n: nat): (d: seq<byte>)
    requires m + n <= 8 * |s|
    ensures |d| == n
    ensures forall i :: 0 <= i < n ==> d[i] == ByteValue(MemoryByte(s, order, m + i))
  {
    if n == 0 then [] else ReadMemory(s, order, m, n - 1) + [ByteValue(MemoryByte(s, order, m + n - 1))]
  }

  class SHA3Context {
    const order: ByteOrder
    const s: array<Lane>
    var nRate: nat
    var nLoaded: nat
    var ixMask: nat
    /** Everything absorbed so far. */
    ghost var msg: seq<byte>

    ghost predicate Valid()
      reads this, s
    {
      && s.Length == 200
      && 0 < nRate <= 168 && nRate % 8 == 0
      && ixMask == IxMask(order)
      && nLoaded == |msg| % nRate
      && Flat(s[..25]) == AbsorbPartial(Zeros(1600), ToBits(msg), 8 * nRate)
    }

    /** SHA3Init. */
    constructor (order: ByteOrder, iSize: int)
      ensures Valid() && fresh(s) && msg == [] && this.order == order
      ensures nRate == if 128 <= iSize <= 512 then (1600 - (iSize + 31) / 32 * 32 * 2) / 8 else (1600 - 2 * 256) / 8
    {
      this.order := order;
      s := new Lane[200](_ => Bits(Zeros(64)));
      nRate := if iSize >= 128 && iSize <= 512 then (1600 - (iSize + 31) / 32 * 32 * 2) / 8 else (1600 - 2 * 256) / 8;
      nLoaded := 0;
      ixMask := IxMask(order);
      msg := [];
      new;
      FlatZeros(s[..25]);
      XorNothing(Zeros(1600));
      assert nRate % 8 == 0;
    }

    /** SHA3Update; aligned says whether the data starts at an address divisible by 8. */
    method Update(aData: seq<byte>, aligned: bool)
      requires Valid()
      modifies this, s
      ensures Valid() && msg == old(msg) + aData && nRate == old(nRate)
    {
      hide AbsorbPartial, KeccakP, Flat, XorAt, XorBits, Rounds, View;
      var i := 0;
      assert old(msg) + aData[..0] == msg;
      if order.Little? && nLoaded % 8 == 0 && aligned {
        while i + 7 < |aData|
          invariant 0 <= i <= |aData| && nLoaded % 8 == 0
          invariant Valid() && msg == old(msg) + aData[..i] && nRate == old(nRate)
        {
          AddWord(aData[i..i + 8]);
          assert aData[..i + 8] == aData[..i] + aData[i..i + 8];
          i := i + 8;
        }
      }
      while i < |aData|
        invariant 0 <= i <= |aData|
        invariant Valid() && msg == old(msg) + aData[..i] && nRate == old(nRate)
      {
        AddByte(aData[i]);
        assert aData[..i + 1] == aData[..i] + [aData[i]];
        i := i + 1;
      }
      assert aData[..i] == aData;
    }

    /** The body of the word loop. */
    method AddWord(d: seq<byte>)
      requires Valid() && |d| == 8 && nLoaded % 8 == 0
      modifies this, s
      ensures Valid() && msg == old(msg) + d && nRate == old(nRate) && nLoaded % 8 == 0
    {
      hide AbsorbPartial, KeccakP, Flat, XorAt, ToBits;
      WordFits(nLoaded, nRate);
      ghost var before := Flat(s[..25]);
      XorWord(nLoaded / 8, d);
      Absorbed(msg, d, nRate, before, Flat(s[..25]));
      Loaded(d);
    }

    method XorWord(j: nat, d: seq<byte>)
      requires s.Length == 200 && j < 25 && |d| == 8
      modifies s
      ensures Flat(s[..25]) == XorAt(Flat(old(s[..25])), 64 * j, ToBits(d))
    {
      hide Flat, XorAt, Xor, ToBits;
      ghost var before := s[..25];
      s[j] := Xor(s[j], LoadWord(d));
      WordXor(before[j], ToBits(d));
      FlatUpdate(before, j, s[j], 0, ToBits(d));
      assert s[..25] == before[j := s[j]];
    }

    /** The permutation, seen on the state string. */
    method Permute()
      requires s.Length == 200
      modifies s
      ensures Flat(s[..25]) == KeccakP(Flat(old(s[..25])))
    {
      hide Flat, KeccakP, Rounds, View;
      ghost var before := s[..25];
      KeccakF1600Step(s);
      PermutedString(before, s[..25]);
    }

    /** What the state string stands for when piece d has gone in and the permutation may still be due. */
    ghost predicate Loading(d: seq<byte>)
      reads this, s
    {
      && s.Length == 200 && 0 < nRate <= 168 && nRate % 8 == 0 && ixMask == IxMask(order)
      && nLoaded + |d| <= nRate
      && var full := nLoaded + |d| == nRate;
         && |msg + d| % nRate == (if full then 0 else nLoaded + |d|)
         && AbsorbPartial(Zeros(1600), ToBits(msg + d), 8 * nRate)
            == if full then KeccakP(Flat(s[..25])) else Flat(s[..25])
    }

    /** The end of both bodies: the permutation and a new block when the last byte of a block has gone in. */
    method Loaded(d: seq<byte>)
      requires Loading(d)
      modifies this`nLoaded, this`msg, s
      ensures Valid() && msg == old(msg) + d
      ensures nLoaded == if old(nLoaded) + |d| == nRate then 0 else old(nLoaded) + |d|
    {
      hide AbsorbPartial, KeccakP, Flat, ToBits;
      nLoaded := nLoaded + |d|;
      msg := msg + d;
      if nLoaded == nRate {
        Permute();
        nLoaded := 0;
      }
    }

    /** The body of the byte loop. */
    method AddByte(d: byte)
      requires Valid()
      modifies this, s
      ensures Valid() && msg == old(msg) + [d] && nRate == old(nRate)
    {
      hide AbsorbPartial, KeccakP, Flat, XorAt, XorBits, Rounds, View, WithByte;
      ghost var before := s[..25];
      var m := Masked(nLoaded, ixMask);
      var k := Significance(order, m);
      assert m / 8 == nLoaded / 8 && k == nLoaded % 8;
      s[m / 8] := WithByte(s[m / 8], k, XorBits(MemoryByte(s[..], order, m), BitsOf(d, 8)));
      ByteXor(before[m / 8], k, BitsOf(d, 8));
      FlatUpdate(before, m / 8, s[m / 8], 8 * k, BitsOf(d, 8));
      assert s[..25] == before[m / 8 := s[m / 8]];
      assert ToBits([d]) == BitsOf(d, 8);
      Absorbed(msg, [d], nRate, Flat(before), Flat(s[..25]));
      Loaded([d]);
    }

    /** SHA3Final: pads, then copies the first nRate bytes of the state behind themselves. */
    method Final(aligned: bool) returns (digest: seq<byte>)
      requires Valid()
      modifies this, s
      ensures nRate == old(nRate) && |digest| == nRate
      ensures ToBits(digest) == SpongeOutput(ToBits(old(msg)) + [false, true], 8 * nRate, 8 * nRate)
    {
      hide AbsorbPartial, Flat, Absorb, Pad, ToBits, MemoryByte, ZeroBytes;
      PadMessage(aligned);
      PartialOfBlocks(Zeros(1600), ToBits(msg), 8 * nRate);
      ghost var padded := s[..];
      CopyOut();
      digest := ReadMemory(s[..], order, nRate, nRate);
      DigestBits(padded, order, digest);
    }

    /** The two branches at the start of SHA3Final. */
    method PadMessage(aligned: bool)
      requires Valid()
      modifies this, s
      ensures Valid() && nRate == old(nRate)
      ensures ToBits(msg) == ToBits(old(msg)) + [false, true] + Pad(8 * nRate, 8 * |old(msg)| + 2)
    {
      hide AbsorbPartial, Flat, Pad, ToBits, ZeroBytes;
      ghost var m := msg;
      if nLoaded == nRate - 1 {
        PaddedShort(m, nRate);
        Update([0x86], aligned);
      } else {
        PaddedLong(m, nRate);
        RemainderMore(|m|, 1, nRate);
        Update([0x06], aligned);
        Skip(nRate - 1 - nLoaded);
        Update([0x80], aligned);
        assert msg == m + [0x06] + ZeroBytes(nRate - 2 - |m| % nRate) + [0x80];
      }
    }

    /** p->nLoaded = p->nRate - 1: the skipped bytes count as zeros. */
    method Skip(ghost n: nat)
      requires Valid() && nLoaded + n == nRate - 1
      modifies this
      ensures Valid() && msg == old(msg) + ZeroBytes(n) && nRate == old(nRate)
    {
      hide AbsorbPartial, Flat;
      BitPhase(|msg|, nRate);
      AbsorbZeros(Zeros(1600), ToBits(msg), 8 * n, 8 * nRate);
      ToBitsAppend(msg, ZeroBytes(n));
      ZeroByteBits(n);
      RemainderMore(|msg|, n, nRate);
      nLoaded := nRate - 1;
      msg := msg + ZeroBytes(n);
    }

    /** The last loop of SHA3Final; what it reads is never what it has written. */
    method CopyOut()
      requires s.Length == 200 && 0 < nRate <= 168 && nRate % 8 == 0 && ixMask == IxMask(order)
      modifies s
      ensures forall j :: 0 <= j < nRate / 8 ==> s[j] == old(s[j])
      ensures forall j :: 0 <= j < nRate ==>
        MemoryByte(s[..], order, nRate + j) == MemoryByte(old(s[..]), order, Masked(j, ixMask))
    {
      hide MemoryByte, WithByte, Significance;
      var i := 0;
      while i < nRate
        invariant 0 <= i <= nRate
        invariant forall j :: 0 <= j < nRate / 8 ==> s[j] == old(s[j])
        invariant forall j :: 0 <= j < i ==>
          MemoryByte(s[..], order, nRate + j) == MemoryByte(old(s[..]), order, Masked(j, ixMask))
      {
        var m := i + nRate;
        ghost var before := s[..];
        var v := MemoryByte(s[..], order, Masked(i, ixMask));
        assert v == MemoryByte(old(s[..]), order, Masked(i, ixMask)) by {
          MaskedByte(s[..], order, i);
          MaskedByte(old(s[..]), order, i);
        }
        s[m / 8] := WithByte(s[m / 8], Significance(order, m), v);
        assert s[..] == before[m / 8 := s[m / 8]];
        Poke(before, order, m, v);
        i := i + 1;
      }
    }
  }

  /** Bytes read at the masked addresses 0, 1, 2, ... spell the state string. */
  lemma DigestBits(s: seq<Lane>, order: ByteOrder, digest: seq<byte>)
    requires |s| == 200 && |digest| <= 168
    requires forall j :: 0 <= j < |digest| ==>
      digest[j] == ByteValue(MemoryByte(s, order, Masked(j, IxMask(order))))
    ensures ToBits(digest) == Flat(s[..25])[..8 * |digest|]
  {
    hide Flat, MemoryByte, Masked, BitsOf;
    forall j: nat | j < |digest| ensures BitsOf(digest[j], 8) == Flat(s[..25])[8 * j..8 * j + 8] {
      DigestByte(s, order, j);
    }
    BytesSpell(digest, Flat(s[..25]));
  }

  lemma DigestByte(s: seq<Lane>, order: ByteOrder, j: nat)
    requires |s| == 200 && j < 168
    ensures Masked(j, IxMask(order)) < 8 * |s|
    ensures BitsOf(ByteValue(MemoryByte(s, order, Masked(j, IxMask(order)))), 8) == Flat(s[..25])[8 * j..8 * j + 8]
  {
    hide Flat, MemoryByte, Masked, BitsOf;
    MaskedByte(s, order, j);
    BitsOfNumberOf(MemoryByte(s, order, Masked(j, IxMask(order))));
    FlatByte(s[..25], j / 8, j % 8);
    assert 64 * (j / 8) + 8 * (j % 8) == 8 * j;
  }

  lemma SliceOfSlice(f: seq<bool>, i: nat, lane: seq<bool>, k: nat)
    requires i + 64 <= |f| && k + 8 <= 64 && lane == f[i..i + 64]
    ensures lane[k..k + 8] == f[i + k..i + k + 8]
  {
    forall m | k <= m < k + 8 ensures lane[m] == f[i + m] {
    }
  }

  /** Byte e of lane q within the string of all lanes. */
  lemma FlatByte(s: seq<Lane>, q: nat, e: nat)
    requires q < |s| && e < 8
    ensures Flat(s)[64 * q + 8 * e..64 * q + 8 * e + 8] == s[q].b[8 * e..8 * e + 8]
  {
    hide *;
    FlatAt(s, q);
    var f, lane := Flat(s), s[q].b;
    var i, k := 64 * q, 8 * e;
    SliceOfSlice(f, i, lane, k);
    assert f[i + k..i + k + 8] == lane[k..k + 8];
  }

  lemma MaskedByte(s: seq<Lane>, order: ByteOrder, j: nat)
    requires j < 8 * |s|
    ensures Masked(j, IxMask(order)) < 8 * |s|
    ensures MemoryByte(s, order, Masked(j, IxMask(order))) == s[j / 8].b[8 * (j % 8)..8 * (j % 8) + 8]
  {
  }

  lemma {:induction false} BytesSpell(d: seq<byte>, f: seq<bool>)
    requires 8 * |d| <= |f|
    requires forall j: nat :: j < |d| ==> BitsOf(d[j], 8) == f[8 * j..8 * j + 8]
    ensures ToBits(d) == f[..8 * |d|]
  {
    if d == [] {
    } else {
      forall j: nat | j < |d[1..]| ensures BitsOf(d[1..][j], 8) == f[8..][8 * j..8 * j + 8] {
        assert BitsOf(d[j + 1], 8) == f[8 * (j + 1)..8 * (j + 1) + 8];
      }
      BytesSpell(d[1..], f[8..]);
      assert BitsOf(d[0], 8) == f[8 * 0..8 * 0 + 8];
    }
  }

  /** Storing one byte changes no other address. */
  lemma Poke(s: seq<Lane>, order: ByteOrder, m: nat, v: seq<bool>)
    requires m < 8 * |s| && |v| == 8
    ensures var s' := s[m / 8 := WithByte(s[m / 8], Significance(order, m), v)];
            && MemoryByte(s', order, m) == v
            && forall n: nat :: n < 8 * |s| && n != m ==> MemoryByte(s', order, n) == MemoryByte(s, order, n)
  {
    var s' := s[m / 8 := WithByte(s[m / 8], Significance(order, m), v)];
    forall n: nat | n < 8 * |s| && n != m ensures MemoryByte(s', order, n) == MemoryByte(s, order, n) {
      if n / 8 == m / 8 {
        OtherByte(s[m / 8], Significance(order, m), Significance(order, n), v);
      }
    }
  }

  lemma OtherByte(a: Lane, k: nat, l: nat, v: seq<bool>)
    requires k < 8 && l < 8 && k != l && |v| == 8
    ensures WithByte(a, k, v).b[8 * l..8 * l + 8] == a.b[8 * l..8 * l + 8]
  {
  }

  function ByteValue(v: seq<bool>): byte
    requires |v| == 8
  {
    BitsOfNumberOf(v);
    assert Pow2(8) == 256;
    NumberOf(v)
  }

  function ZeroBytes(n: nat): seq<byte> {
    seq(n, _ => 0)
  }

  lemma {:induction false} ZeroByteBits(n: nat)
    ensures ToBits(ZeroBytes(n)) == Zeros(8 * n)
  {
    if n == 0 {
    } else {
      ZeroByteBits(n - 1);
      assert ZeroBytes(n)[1..] == ZeroBytes(n - 1);
      assert BitsOf(0, 8) == Zeros(8);
      assert Zeros(8 * n) == Zeros(8) + Zeros(8 * (n - 1));
    }
  }

  /** Both padding branches of SHA3Final are 01 followed by pad10*1: here one byte is left. */
  lemma PaddedShort(m: seq<byte>, rate: nat)
    requires rate > 1 && |m| % rate == rate - 1
    ensures ToBits(m + [0x86]) == ToBits(m) + [false, true] + Pad(8 * rate, 8 * |m| + 2)
  {
    hide ToBits;
    PadLength(|m|, rate);
    SuffixBytes();
    ToBitsAppend(m, [0x86]);
  }

  /** Here at least two bytes are left. */
  lemma PaddedLong(m: seq<byte>, rate: nat)
    requires rate > 1 && |m| % rate < rate - 1
    ensures ToBits(m + [0x06] + ZeroBytes(rate - 2 - |m| % rate) + [0x80])
         == ToBits(m) + [false, true] + Pad(8 * rate, 8 * |m| + 2)
  {
    hide ToBits, ZeroBytes, Zeros, Pad;
    var n := rate - 2 - |m| % rate;
    var z := ZeroBytes(n);
    SuffixBytes();
    ToBitsAppend(m, [0x06]);
    ToBitsAppend(m + [0x06], z);
    ToBitsAppend(m + [0x06] + z, [0x80]);
    ZeroByteBits(n);
    PadLength(|m|, rate);
    PadForm(8 * rate, 8 * |m| + 2, 8 * n + 12);
    ZerosJoin(5, 8 * n);
    ZerosJoin(8 * n + 5, 7);
    assert Zeros(8 * n + 12) == Zeros(5) + Zeros(8 * n) + Zeros(7);
    PaddingParts(ToBits(m), Zeros(5), Zeros(8 * n), Zeros(7));
  }

  lemma PaddingParts(a: seq<bool>, z5: seq<bool>, zn: seq<bool>, z7: seq<bool>)
    ensures a + ([false, true, true] + z5) + zn + (z7 + [true])
         == a + [false, true] + ([true] + (z5 + zn + z7) + [true])
  {
  }

  lemma SingleByte(n: byte)
    ensures ToBits([n]) == BitsOf(n, 8)
  {
  }

  lemma NoBits(n: nat)
    ensures BitsOf(n, 0) == []
  {
  }

  lemma {:induction false} BitsOfZero(len: nat)
    ensures BitsOf(0, len) == Zeros(len)
  {
    if len == 0 {
    } else {
      BitsOfZero(len - 1);
    }
  }

  lemma SuffixBytes()
    ensures ToBits([0x86]) == [false, true] + ([true] + Zeros(4) + [true])
    ensures ToBits([0x06]) == [false, true, true] + Zeros(5)
    ensures ToBits([0x80]) == Zeros(7) + [true]
  {
    hide BitsOf;
    SingleByte(0x86);
    SingleByte(0x06);
    SingleByte(0x80);
    assert BitsOf(0, 0) == [] by { NoBits(0); }
    BitsOfCons(true, 0, 0);
    BitsOfCons(false, 1, 1);
    BitsOfCons(false, 2, 2);
    BitsOfCons(false, 4, 3);
    BitsOfCons(false, 8, 4);
    BitsOfCons(false, 16, 5);
    BitsOfCons(false, 32, 6);
    BitsOfCons(false, 64, 7);
    BitsOfCons(true, 16, 5);
    BitsOfCons(true, 33, 6);
    BitsOfCons(false, 67, 7);
    BitsOfZero(5);
    BitsOfCons(true, 0, 5);
    BitsOfCons(true, 1, 6);
    BitsOfCons(false, 3, 7);
  }

  lemma ZerosJoin(a: nat, b: nat)
    ensures Zeros(a) + Zeros(b) == Zeros(a + b)
  {
  }

  lemma PadForm(x: nat, m: nat, j: nat)
    requires x > 0 && (-(m + 2)) % x == j
    ensures Pad(x, m) == [true] + Zeros(j) + [true]
  {
  }

  lemma PadLength(n: nat, rate: nat)
    requires rate > 1
    ensures (-(8 * n + 4)) % (8 * rate) == 8 * (rate - n % rate) - 4
  {
    BitPhase(n, rate);
    Division(8 * n, 8 * rate);
    var q := 8 * n / (8 * rate);
    assert (-q - 1) * (8 * rate) == -(q * (8 * rate)) - 8 * rate;
    RemainderUnique(-(8 * n + 4), -q - 1, 8 * rate, 8 * (rate - n % rate) - 4);
  }

  lemma {:induction false} FlatZeros(s: seq<Lane>)
    requires forall i :: 0 <= i < |s| ==> s[i].b == Zeros(64)
    ensures Flat(s) == Zeros(64 * |s|)
  {
    if s == [] {
    } else {
      FlatZeros(s[1..]);
      assert Zeros(64 * |s|) == Zeros(64) + Zeros(64 * |s[1..]|);
    }
  }

  // ----- the sha3(X, SIZE) function

  datatype SqlResult = NullResult | Hash(bytes: seq<byte>) | BadSize

  /** sha3Func: x is absent for NULL, size is absent in the one-argument form. */
  method Sha3Func(order: ByteOrder, x: Option<seq<byte>>, size: Option<int>, aligned: bool) returns (r: SqlResult)
    ensures var iSize := if size.Some? then size.value else 256;
            if iSize !in {224, 256, 384, 512} then r == BadSize
            else if x.None? then r == NullResult
            else r.Hash? && ToBits(r.bytes) == Sha3(ToBits(x.value), iSize)
  {
    hide ToBits, Sha3, SpongeOutput, SHA3Context.Valid;
    var iSize := 256;
    if size.Some? {
      iSize := size.value;
      if iSize != 224 && iSize != 256 && iSize != 384 && iSize != 512 {
        return BadSize;
      }
    }
    if x.None? {
      return NullResult;
    }
    var cx := new SHA3Context(order, iSize);
    cx.Update(x.value, aligned);
    assert cx.msg == x.value;
    var digest := cx.Final(aligned);
    HashRate(iSize);
    DigestPrefix(ToBits(x.value), iSize, cx.nRate, digest);
    r := Hash(digest[..iSize / 8]);
  }

  lemma HashRate(iSize: int)
    requires iSize in {224, 256, 384, 512}
    ensures 8 * ((1600 - (iSize + 31) / 32 * 32 * 2) / 8) == 1600 - 2 * iSize
  {
  }

  /** The first bytes of what SHA3Final returns are the hash of the standard. */
  lemma DigestPrefix(m: seq<bool>, iSize: nat, rate: nat, digest: seq<byte>)
    requires iSize in {224, 256, 384, 512} && 8 * rate == 1600 - 2 * iSize && |digest| == rate
    requires ToBits(digest) == SpongeOutput(m + [false, true], 8 * rate, 8 * rate)
    ensures ToBits(digest[..iSize / 8]) == Sha3(m, iSize)
  {
    hide ToBits, Absorb, Pad;
    assert digest == digest[..iSize / 8] + digest[iSize / 8..];
    ToBitsAppend(digest[..iSize / 8], digest[iSize / 8..]);
    assert ToBits(digest[..iSize / 8]) == ToBits(digest)[..iSize];
  }
}
