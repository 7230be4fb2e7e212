/**
 * The 24 round constants of Keccak: the source lists them as 64-bit numbers, the standard
 * generates them with a shift register (FIPS 202, section 3.2.5).
 */
module RoundConstants {
  import opened Bytes

  /** The register R of algorithm 5, R[0] first. */
  datatype Register = Register(r0: bool, r1: bool, r2: bool, r3: bool, r4: bool, r5: bool, r6: bool, r7: bool)

  function Next(r: Register): Register {
    Register(r.r7, r.r0, r.r1, r.r2, r.r3 != r.r7, r.r4 != r.r7, r.r5 != r.r7, r.r6)
  }

  function Clock(t: nat): Register {
    if t == 0 then Register(true, false, false, false, false, false, false, false) else Next(Clock(t - 1))
  }

  predicate Rc(t: nat) {
    Clock(t % 255).r0
  }

  function Zeros(n: nat): seq<bool> {
    seq(n, _ => false)
  }

  /** The word whose bits 0, 1, 3, 7, 15, 31 and 63 are given and whose other bits are 0. */
  function Sparse(c0: bool, c1: bool, c2: bool, c3: bool, c4: bool, c5: bool, c6: bool): seq<bool> {
    [c0] + ([c1] + (Zeros(1) + ([c2] + (Zeros(3) + ([c3] + (Zeros(7) + ([c4] + (Zeros(15) + ([c5] + (Zeros(31) + [c6]))))))))))
  }

  /** The constant of round i: bit 2^j - 1 is rc(j + 7i). */
  function RoundConstant(i: nat): seq<bool> {
    Sparse(Rc(7 * i), Rc(7 * i + 1), Rc(7 * i + 2), Rc(7 * i + 3), Rc(7 * i + 4), Rc(7 * i + 5), Rc(7 * i + 6))
  }

  /** The table of the source. */
  const RC: seq<nat> := [
    0x0000000000000001, 0x0000000000008082, 0x800000000000808a, 0x8000000080008000,
    0x000000000000808b, 0x0000000080000001, 0x8000000080008081, 0x8000000000008009,
    0x000000000000008a, 0x0000000000000088, 0x0000000080008009, 0x000000008000000a,
    0x000000008000808b, 0x800000000000008b, 0x8000000000008089, 0x8000000000008003,
    0x8000000000008002, 0x8000000000000080, 0x000000000000800a, 0x800000008000000a,
    0x8000000080008081, 0x8000000000008080, 0x0000000080000001, 0x8000000080008008
  ]

  function Weight(c: bool): nat {
    if c then 1 else 0
  }

  function Doubled(m: nat, g: nat): nat {
    if g == 0 then m else 2 * Doubled(m, g - 1)
  }

  lemma {:induction false} BitsOfDoubled(m: nat, g: nat, len: nat)
    requires g <= len
    ensures BitsOf(Doubled(m, g), len) == Zeros(g) + BitsOf(m, len - g)
  {
    if g > 0 {
      BitsOfDoubled(m, g - 1, len - 1);
      assert Zeros(g) == [false] + Zeros(g - 1);
    } else {
      assert Zeros(0) == [];
    }
  }

  /** A bit with a number of gap zero bits above it. */
  lemma BitsOfStep(n: nat, c: bool, m: nat, g: nat, len: nat)
    requires g < len && n == Weight(c) + 2 * Doubled(m, g)
    ensures BitsOf(n, len) == [c] + (Zeros(g) + BitsOf(m, len - 1 - g))
  {
    BitsOfDoubled(m, g, len - 1);
  }

  lemma {:induction false} DoubledIsTimes(m: nat, g: nat)
    ensures Doubled(m, g) == Doubled(1, g) * m
  {
    if g == 0 {
    } else {
      DoubledIsTimes(m, g - 1);
      assert 2 * (Doubled(1, g - 1) * m) == 2 * Doubled(1, g - 1) * m;
    }
  }

  lemma DoubledProduct(a: int, b: int)
    ensures 2 * (a * b) == a * (2 * b)
  {
  }

  lemma DoubledSum(g: nat, h: nat)
    ensures Doubled(1, g + h) == Doubled(1, g) * Doubled(1, h)
  {
    if h == 0 {
    } else {
      DoubledSum(g, h - 1);
      DoubledProduct(Doubled(1, g), Doubled(1, h - 1));
    }
  }

  lemma SmallDoubles(m: nat)
    ensures Doubled(m, 0) == m && Doubled(m, 1) == 2 * m
    ensures Doubled(1, 3) == 8 && Doubled(1, 4) == 16
  {
  }

  lemma DoubledForms(m: nat)
    ensures Doubled(m, 0) == m && Doubled(m, 1) == 2 * m && Doubled(m, 3) == 8 * m && Doubled(m, 7) == 0x80 * m
    ensures Doubled(m, 15) == 0x8000 * m && Doubled(m, 31) == 0x8000_0000 * m
  {
    hide Doubled;
    SmallDoubles(m);
    DoubledSum(3, 4);
    DoubledSum(4, 4);
    DoubledSum(7, 8);
    DoubledSum(8, 8);
    DoubledSum(15, 16);
    DoubledIsTimes(m, 3);
    DoubledIsTimes(m, 7);
    DoubledIsTimes(m, 15);
    DoubledIsTimes(m, 31);
  }

  /** The word of bits 7, 15, 31 and 63, from the number that holds them in nested form. */
  lemma SparseTop(m3: nat, c3: bool, c4: bool, c5: bool, c6: bool, m4: nat, m5: nat)
    requires m3 == Weight(c3) + 0x100 * m4 && m4 == Weight(c4) + 0x1_0000 * m5
    requires m5 == Weight(c5) + 0x1_0000_0000 * Weight(c6)
    ensures BitsOf(m3, 57) == [c3] + (Zeros(7) + ([c4] + (Zeros(15) + ([c5] + (Zeros(31) + [c6])))))
  {
    hide BitsOf, Doubled, Zeros;
    DoubledForms(m4);
    DoubledForms(m5);
    DoubledForms(Weight(c6));
    BitsOfStep(m3, c3, m4, 7, 57);
    BitsOfStep(m4, c4, m5, 15, 49);
    BitsOfStep(m5, c5, Weight(c6), 31, 33);
    LastBit(c6);
  }

  /** A number given by its bits in nested form, and the word of those bits. */
  lemma SparseBits(n: nat, c0: bool, c1: bool, c2: bool, c3: bool, c4: bool, c5: bool, c6: bool,
                   m1: nat, m2: nat, m3: nat, m4: nat, m5: nat)
    requires n == Weight(c0) + 2 * m1 && m1 == Weight(c1) + 4 * m2 && m2 == Weight(c2) + 0x10 * m3
    requires m3 == Weight(c3) + 0x100 * m4 && m4 == Weight(c4) + 0x1_0000 * m5
    requires m5 == Weight(c5) + 0x1_0000_0000 * Weight(c6)
    ensures BitsOf(n, 64) == Sparse(c0, c1, c2, c3, c4, c5, c6)
  {
    hide BitsOf, Doubled, Zeros, Weight;
    SparseTop(m3, c3, c4, c5, c6, m4, m5);
    DoubledForms(m1);
    DoubledForms(m2);
    DoubledForms(m3);
    BitsOfStep(n, c0, m1, 0, 64);
    BitsOfStep(m1, c1, m2, 1, 63);
    BitsOfStep(m2, c2, m3, 3, 61);
    ZerosNone(BitsOf(m1, 63));
  }

  lemma LastBit(c: bool)
    ensures BitsOf(Weight(c), 1) == [c]
  {
  }

  lemma ZerosNone(b: seq<bool>)
    ensures Zeros(0) + b == b
  {
  }

  lemma ClockSeven(t: nat, r: Register, s: Register)
    requires t < 200 && Clock(t) == r
    requires s == Next(Next(Next(Next(Next(Next(Next(r)))))))
    ensures Clock(t + 7) == s
    ensures Rc(t) == r.r0 && Rc(t + 1) == Next(r).r0 && Rc(t + 2) == Next(Next(r)).r0
    ensures Rc(t + 3) == Next(Next(Next(r))).r0 && Rc(t + 4) == Next(Next(Next(Next(r)))).r0
    ensures Rc(t + 5) == Next(Next(Next(Next(Next(r))))).r0 && Rc(t + 6) == Next(Next(Next(Next(Next(Next(r)))))).r0
  {
    hide Next;
    assert Clock(t + 2) == Next(Clock(t + 1));
    assert Clock(t + 4) == Next(Next(Clock(t + 2)));
    assert Clock(t + 6) == Next(Next(Clock(t + 4)));
  }

  /** The bits that the register puts out in seven steps, and the state it reaches. */
  predicate SevenSteps(r: Register, s: Register,
                       c0: bool, c1: bool, c2: bool, c3: bool, c4: bool, c5: bool, c6: bool)
  {
    var r1 := Next(r);
    var r2 := Next(r1);
    var r3 := Next(r2);
    var r4 := Next(r3);
    var r5 := Next(r4);
    var r6 := Next(r5);
    && s == Next(r6)
    && r.r0 == c0 && r1.r0 == c1 && r2.r0 == c2 && r3.r0 == c3 && r4.r0 == c4 && r5.r0 == c5 && r6.r0 == c6
  }

  function Number(c0: bool, c1: bool, c2: bool, c3: bool, c4: bool, c5: bool, c6: bool): nat {
    Weight(c0) + 2 * (Weight(c1) + 4 * (Weight(c2) + 0x10 * (Weight(c3)
      + 0x100 * (Weight(c4) + 0x1_0000 * (Weight(c5) + 0x1_0000_0000 * Weight(c6))))))
  }

  /** One line of the table: constant n is the one the register generates from state r. */
  lemma TableLine(i: nat, n: nat, r: Register, s: Register,
                  c0: bool, c1: bool, c2: bool, c3: bool, c4: bool, c5: bool, c6: bool)
    requires i < 24 && Clock(7 * i) == r && SevenSteps(r, s, c0, c1, c2, c3, c4, c5, c6)
    requires n == Number(c0, c1, c2, c3, c4, c5, c6)
    ensures Clock(7 * (i + 1)) == s
    ensures BitsOf(n, 64) == RoundConstant(i)
  {
    hide Next, Clock, Rc, Sparse, BitsOf, Weight;
    ClockSeven(7 * i, r, s);
    var m5 := Weight(c5) + 0x1_0000_0000 * Weight(c6);
    var m4 := Weight(c4) + 0x1_0000 * m5;
    var m3 := Weight(c3) + 0x100 * m4;
    var m2 := Weight(c2) + 0x10 * m3;
    var m1 := Weight(c1) + 4 * m2;
    SparseBits(n, c0, c1, c2, c3, c4, c5, c6, m1, m2, m3, m4, m5);
  }

  lemma ClockZero()
    ensures Clock(0) == Register(true, false, false, false, false, false, false, false)
  {
  }

  lemma LinesTo8()
    ensures Clock(56) == Register(false, true, false, true, false, false, true, true)
    ensures BitsOf(0x1, 64) == RoundConstant(0)
    ensures BitsOf(0x8082, 64) == RoundConstant(1)
    ensures BitsOf(0x800000000000808a, 64) == RoundConstant(2)
    ensures BitsOf(0x8000000080008000, 64) == RoundConstant(3)
    ensures BitsOf(0x808b, 64) == RoundConstant(4)
    ensures BitsOf(0x80000001, 64) == RoundConstant(5)
    ensures BitsOf(0x8000000080008081, 64) == RoundConstant(6)
    ensures BitsOf(0x8000000000008009, 64) == RoundConstant(7)
  {
    ClockZero();
    hide BitsOf, RoundConstant, Clock;
    assert Clock(7) == Register(false, false, false, false, false, false, false, true)
        && BitsOf(0x1, 64) == RoundConstant(0) by {
      TableLine(0, 0x1, Register(true, false, false, false, false, false, false, false),
                Register(false, false, false, false, false, false, false, true),
                true, false, false, false, false, false, false);
    }
    assert Clock(14) == Register(false, false, false, true, true, false, true, true)
        && BitsOf(0x8082, 64) == RoundConstant(1) by {
      TableLine(1, 0x8082, Register(false, false, false, false, false, false, false, true),
                Register(false, false, false, true, true, false, true, true),
                false, true, false, true, true, false, false);
    }
    assert Clock(21) == Register(false, true, false, true, true, false, false, false)
        && BitsOf(0x800000000000808a, 64) == RoundConstant(2) by {
      TableLine(2, 0x800000000000808a, Register(false, false, false, true, true, false, true, true),
                Register(false, true, false, true, true, false, false, false),
                false, true, true, true, true, false, true);
    }
    assert Clock(28) == Register(true, true, true, true, true, false, true, true)
        && BitsOf(0x8000000080008000, 64) == RoundConstant(3) by {
      TableLine(3, 0x8000000080008000, Register(false, true, false, true, true, false, false, false),
                Register(true, true, true, true, true, false, true, true),
                false, false, false, false, true, true, true);
    }
    assert Clock(35) == Register(true, false, false, true, false, false, false, false)
        && BitsOf(0x808b, 64) == RoundConstant(4) by {
      TableLine(4, 0x808b, Register(true, true, true, true, true, false, true, true),
                Register(true, false, false, true, false, false, false, false),
                true, true, true, true, true, false, false);
    }
    assert Clock(42) == Register(true, false, true, false, true, true, false, false)
        && BitsOf(0x80000001, 64) == RoundConstant(5) by {
      TableLine(5, 0x80000001, Register(true, false, false, true, false, false, false, false),
                Register(true, false, true, false, true, true, false, false),
                true, false, false, false, false, true, false);
    }
    assert Clock(49) == Register(true, true, true, true, false, false, true, false)
        && BitsOf(0x8000000080008081, 64) == RoundConstant(6) by {
      TableLine(6, 0x8000000080008081, Register(true, false, true, false, true, true, false, false),
                Register(true, true, true, true, false, false, true, false),
                true, false, false, true, true, true, true);
    }
    assert Clock(56) == Register(false, true, false, true, false, false, true, true)
        && BitsOf(0x8000000000008009, 64) == RoundConstant(7) by {
      TableLine(7, 0x8000000000008009, Register(true, true, true, true, false, false, true, false),
                Register(false, true, false, true, false, false, true, true),
                true, false, true, false, true, false, true);
    }
  }

  lemma LinesTo16()
    ensures Clock(112) == Register(false, true, false, true, false, true, false, true)
    ensures BitsOf(0x8a, 64) == RoundConstant(8)
    ensures BitsOf(0x88, 64) == RoundConstant(9)
    ensures BitsOf(0x80008009, 64) == RoundConstant(10)
    ensures BitsOf(0x8000000a, 64) == RoundConstant(11)
    ensures BitsOf(0x8000808b, 64) == RoundConstant(12)
    ensures BitsOf(0x800000000000008b, 64) == RoundConstant(13)
    ensures BitsOf(0x8000000000008089, 64) == RoundConstant(14)
    ensures BitsOf(0x8000000000008003, 64) == RoundConstant(15)
  {
    LinesTo8();
    hide BitsOf, RoundConstant, Clock;
    assert Clock(63) == Register(false, false, false, false, true, true, true, false)
        && BitsOf(0x8a, 64) == RoundConstant(8) by {
      TableLine(8, 0x8a, Register(false, true, false, true, false, false, true, true),
                Register(false, false, false, false, true, true, true, false),
                false, true, true, true, false, false, false);
    }
    assert Clock(70) == Register(true, false, false, false, false, false, true, false)
        && BitsOf(0x88, 64) == RoundConstant(9) by {
      TableLine(9, 0x88, Register(false, false, false, false, true, true, true, false),
                Register(true, false, false, false, false, false, true, false),
                false, false, true, true, false, false, false);
    }
    assert Clock(77) == Register(false, false, true, true, false, true, true, true)
        && BitsOf(0x80008009, 64) == RoundConstant(10) by {
      TableLine(10, 0x80008009, Register(true, false, false, false, false, false, true, false),
                Register(false, false, true, true, false, true, true, true),
                true, false, true, false, true, true, false);
    }
    assert Clock(84) == Register(true, false, true, false, true, false, true, true)
        && BitsOf(0x8000000a, 64) == RoundConstant(11) by {
      TableLine(11, 0x8000000a, Register(false, false, true, true, false, true, true, true),
                Register(true, false, true, false, true, false, true, true),
                false, true, true, false, false, true, false);
    }
    assert Clock(91) == Register(true, false, true, true, false, false, true, true)
        && BitsOf(0x8000808b, 64) == RoundConstant(12) by {
      TableLine(12, 0x8000808b, Register(true, false, true, false, true, false, true, true),
                Register(true, false, true, true, false, false, true, true),
                true, true, true, true, true, true, false);
    }
    assert Clock(98) == Register(true, true, false, false, false, true, true, false)
        && BitsOf(0x800000000000008b, 64) == RoundConstant(13) by {
      TableLine(13, 0x800000000000008b, Register(true, false, true, true, false, false, true, true),
                Register(true, true, false, false, false, true, true, false),
                true, true, true, true, false, false, true);
    }
    assert Clock(105) == Register(true, true, false, true, false, true, false, true)
        && BitsOf(0x8000000000008089, 64) == RoundConstant(14) by {
      TableLine(14, 0x8000000000008089, Register(true, true, false, false, false, true, true, false),
                Register(true, true, false, true, false, true, false, true),
                true, false, true, true, true, false, true);
    }
    assert Clock(112) == Register(false, true, false, true, false, true, false, true)
        && BitsOf(0x8000000000008003, 64) == RoundConstant(15) by {
      TableLine(15, 0x8000000000008003, Register(true, true, false, true, false, true, false, true),
                Register(false, true, false, true, false, true, false, true),
                true, true, false, false, true, false, true);
    }
  }

  lemma LinesTo24()
    ensures Clock(168) == Register(false, true, true, true, false, false, false, true)
    ensures BitsOf(0x8000000000008002, 64) == RoundConstant(16)
    ensures BitsOf(0x8000000000000080, 64) == RoundConstant(17)
    ensures BitsOf(0x800a, 64) == RoundConstant(18)
    ensures BitsOf(0x800000008000000a, 64) == RoundConstant(19)
    ensures BitsOf(0x8000000080008081, 64) == RoundConstant(20)
    ensures BitsOf(0x8000000000008080, 64) == RoundConstant(21)
    ensures BitsOf(0x80000001, 64) == RoundConstant(22)
    ensures BitsOf(0x8000000080008008, 64) == RoundConstant(23)
  {
    LinesTo16();
    hide BitsOf, RoundConstant, Clock;
    assert Clock(119) == Register(false, true, false, true, false, true, false, false)
        && BitsOf(0x8000000000008002, 64) == RoundConstant(16) by {
      TableLine(16, 0x8000000000008002, Register(false, true, false, true, false, true, false, true),
                Register(false, true, false, true, false, true, false, false),
                false, true, false, false, true, false, true);
    }
    assert Clock(126) == Register(false, true, false, false, true, true, true, true)
        && BitsOf(0x8000000000000080, 64) == RoundConstant(17) by {
      TableLine(17, 0x8000000000000080, Register(false, true, false, true, false, true, false, false),
                Register(false, true, false, false, true, true, true, true),
                false, false, false, true, false, false, true);
    }
    assert Clock(133) == Register(false, false, false, true, false, true, true, true)
        && BitsOf(0x800a, 64) == RoundConstant(18) by {
      TableLine(18, 0x800a, Register(false, true, false, false, true, true, true, true),
                Register(false, false, false, true, false, true, true, true),
                false, true, true, false, true, false, false);
    }
    assert Clock(140) == Register(true, true, true, false, true, true, false, false)
        && BitsOf(0x800000008000000a, 64) == RoundConstant(19) by {
      TableLine(19, 0x800000008000000a, Register(false, false, false, true, false, true, true, true),
                Register(true, true, true, false, true, true, false, false),
                false, true, true, false, false, true, true);
    }
    assert Clock(147) == Register(false, true, true, true, true, true, false, false)
        && BitsOf(0x8000000080008081, 64) == RoundConstant(20) by {
      TableLine(20, 0x8000000080008081, Register(true, true, true, false, true, true, false, false),
                Register(false, true, true, true, true, true, false, false),
                true, false, false, true, true, true, true);
    }
    assert Clock(154) == Register(true, true, false, true, false, false, false, false)
        && BitsOf(0x8000000000008080, 64) == RoundConstant(21) by {
      TableLine(21, 0x8000000000008080, Register(false, true, true, true, true, true, false, false),
                Register(true, true, false, true, false, false, false, false),
                false, false, false, true, true, false, true);
    }
    assert Clock(161) == Register(false, false, true, false, false, false, true, false)
        && BitsOf(0x80000001, 64) == RoundConstant(22) by {
      TableLine(22, 0x80000001, Register(true, true, false, true, false, false, false, false),
                Register(false, false, true, false, false, false, true, false),
                true, false, false, false, false, true, false);
    }
    assert Clock(168) == Register(false, true, true, true, false, false, false, true)
        && BitsOf(0x8000000080008008, 64) == RoundConstant(23) by {
      TableLine(23, 0x8000000080008008, Register(false, false, true, false, false, false, true, false),
                Register(false, true, true, true, false, false, false, true),
                false, false, true, false, true, true, true);
    }
  }

  /** The table of the source is what the standard generates. */
  lemma TableIsStandard()
    ensures |RC| == 24
    ensures forall i: nat :: i < 24 ==> BitsOf(RC[i], 64) == RoundConstant(i)
  {
    hide BitsOf, RoundConstant, Clock;
    LinesTo8();
    LinesTo16();
    LinesTo24();
  }
}
