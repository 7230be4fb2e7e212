/**
 * The sponge construction of FIPS 202 (sections 4 and 5.1) on bit strings, the SHA-3
 * functions built on it (section 6.1), and an incremental form of its absorbing phase.
 */
module Sponge {
  import opened RoundConstants
  import opened Keccak
  import opened Remainders

  type StateString = s: seq<bool> | |s| == 1600 witness seq(1600, _ => false)

  // ----- strings and state arrays (section 3.1)

  function Flat(s: seq<Lane>): (b: seq<bool>)
    ensures |b| == 64 * |s|
  {
    if s == [] then [] else s[0].b + Flat(s[1..])
  }

  function Lanes(b: StateString): Storage {
    seq(25, i requires 0 <= i < 25 => Bits(b[64 * i..64 * i + 64]))
  }

  function Unview(a: State): Storage {
    [a.p0.l0, a.p0.l1, a.p0.l2, a.p0.l3, a.p0.l4, a.p1.l0, a.p1.l1, a.p1.l2, a.p1.l3, a.p1.l4,
     a.p2.l0, a.p2.l1, a.p2.l2, a.p2.l3, a.p2.l4, a.p3.l0, a.p3.l1, a.p3.l2, a.p3.l3, a.p3.l4,
     a.p4.l0, a.p4.l1, a.p4.l2, a.p4.l3, a.p4.l4]
  }

  lemma {:induction false} FlatAt(s: seq<Lane>, i: nat)
    requires i < |s|
    ensures Flat(s)[64 * i..64 * i + 64] == s[i].b
  {
    if i == 0 {
    } else {
      FlatAt(s[1..], i - 1);
      assert Flat(s)[64 * i..64 * i + 64] == Flat(s[1..])[64 * (i - 1)..64 * (i - 1) + 64];
    }
  }

  lemma LanesOfFlat(s: Storage)
    ensures Lanes(Flat(s)) == s
  {
    forall i | 0 <= i < 25 ensures Lanes(Flat(s))[i] == s[i] {
      FlatAt(s, i);
    }
  }

  lemma UnviewView(s: Storage)
    ensures Unview(View(s)) == s
  {
  }

  /** The permutation on strings (section 3.3). */
  function KeccakP(b: StateString): StateString {
    Flat(Unview(Rounds(View(Lanes(b)), 24)))
  }

  /** An in-place permutation of lanes is KeccakP on the string they spell. */
  lemma PermutedString(before: Storage, after: Storage)
    requires View(after) == Rounds(View(before), 24)
    ensures Flat(after) == KeccakP(Flat(before))
  {
    hide Lanes, View, Unview, Flat, Rounds;
    LanesOfFlat(before);
    UnviewView(after);
  }

  // ----- the sponge (section 4)

  function XorBits(a: seq<bool>, b: seq<bool>): (c: seq<bool>)
    requires |a| == |b|
    ensures |c| == |a|
  {
    seq(|a|, i requires 0 <= i < |a| => a[i] != b[i])
  }

  /** a with b added in from position n. */
  function XorAt(a: seq<bool>, n: nat, b: seq<bool>): (c: seq<bool>)
    requires n + |b| <= |a|
    ensures |c| == |a|
  {
    XorBits(a, Zeros(n) + b + Zeros(|a| - n - |b|))
  }

  /** One block of the absorbing phase: s := f(s + (block || 0^c)). */
  function AbsorbBlock(s: StateString, block: seq<bool>): StateString
    requires |block| <= 1600
  {
    KeccakP(XorBits(s, block + Zeros(1600 - |block|)))
  }

  /** Absorbs a string made of whole blocks of r bits. */
  function Absorb(s: StateString, p: seq<bool>, r: nat): StateString
    requires 0 < r <= 1600
    decreases |p|
  {
    if |p| < r then s else Absorb(AbsorbBlock(s, p[..r]), p[r..], r)
  }

  /** The padding rule pad10*1 (section 5.1). */
  function Pad(x: nat, m: nat): (p: seq<bool>)
    requires x > 0
    ensures (m + |p|) % x == 0
  {
    var j := (-(m + 2)) % x;
    assert (m + 2 + j) % x == 0 by { UpToMultiple(m + 2, x); }
    [true] + Zeros(j) + [true]
  }

  /** SPONGE[KECCAK-p[1600, 24], pad10*1, r](n, d) for an output no longer than the rate. */
  function SpongeOutput(n: seq<bool>, r: nat, d: nat): (z: seq<bool>)
    requires 0 < d <= r <= 1600
    ensures |z| == d
  {
    Absorb(Zeros(1600), n + Pad(r, |n|), r)[..d]
  }

  /** SHA3-d(m) = KECCAK[2d](m || 01, d) (section 6.1). */
  function Sha3(m: seq<bool>, d: nat): (z: seq<bool>)
    requires 0 < d && 3 * d <= 1600
    ensures |z| == d
  {
    SpongeOutput(m + [false, true], 1600 - 2 * d, d)
  }

  // ----- absorbing a string that need not fill its last block

  function AbsorbPartial(s: StateString, p: seq<bool>, r: nat): StateString
    requires 0 < r <= 1600
    decreases |p|
  {
    if |p| < r then XorBits(s, p + Zeros(1600 - |p|))
    else AbsorbPartial(AbsorbBlock(s, p[..r]), p[r..], r)
  }

  lemma {:induction false} PartialOfBlocks(s: StateString, p: seq<bool>, r: nat)
    requires 0 < r <= 1600 && |p| % r == 0
    ensures AbsorbPartial(s, p, r) == Absorb(s, p, r)
    decreases |p|
  {
    hide AbsorbBlock, XorBits;
    if p == [] {
      XorNothing(s);
    } else {
      PositiveMultiple(|p|, r);
      RemainderLess(|p|, r);
      PartialOfBlocks(AbsorbBlock(s, p[..r]), p[r..], r);
    }
  }

  /** Appending a piece that stays within the current block. */
  lemma {:induction false} AbsorbPiece(s: StateString, p: seq<bool>, b: seq<bool>, r: nat)
    requires 0 < r <= 1600 && b != [] && |p| % r + |b| <= r
    ensures AbsorbPartial(s, p + b, r)
         == var t := XorAt(AbsorbPartial(s, p, r), |p| % r, b);
            if |p| % r + |b| == r then KeccakP(t) else t
    decreases |p|
  {
    hide KeccakP, XorBits, XorAt;
    if |p| < r {
      SmallRemainder(|p|, r);
      PieceOfBlock(s, p, b);
      if |p| + |b| == r {
        assert (p + b)[..r] == p + b && (p + b)[r..] == [];
        XorNothing(AbsorbBlock(s, p + b));
      }
    } else {
      hide AbsorbBlock;
      RemainderLess(|p|, r);
      assert (p + b)[..r] == p[..r] && (p + b)[r..] == p[r..] + b;
      AbsorbPiece(AbsorbBlock(s, p[..r]), p[r..], b, r);
    }
  }

  lemma PieceOfBlock(s: StateString, p: seq<bool>, b: seq<bool>)
    requires |p| + |b| <= 1600
    ensures XorAt(XorBits(s, p + Zeros(1600 - |p|)), |p|, b) == XorBits(s, p + b + Zeros(1600 - |p| - |b|))
  {
  }

  lemma XorNothing(s: StateString)
    ensures XorBits(s, [] + Zeros(1600)) == s
  {
  }

  /** Zero bits leave the state as it is until the block is full. */
  lemma AbsorbZeros(s: StateString, p: seq<bool>, n: nat, r: nat)
    requires 0 < r <= 1600 && |p| % r + n < r
    ensures AbsorbPartial(s, p + Zeros(n), r) == AbsorbPartial(s, p, r)
  {
    hide KeccakP;
    if n == 0 {
      assert p + Zeros(0) == p;
    } else {
      AbsorbPiece(s, p, Zeros(n), r);
      var t := AbsorbPartial(s, p, r);
      assert XorAt(t, |p| % r, Zeros(n)) == t;
    }
  }
}
