/**
 * The permutation Keccak-p[1600, 24] of FIPS 202, and the shell's version of it: four rounds
 * unrolled, in place, with lanes left at permuted positions between the rounds.
 */
module Keccak {
  import opened Bytes
  import opened RoundConstants

  /** A word of bits; bit z (of weight 2^z) is element z. */
  datatype Bits = Bits(b: seq<bool>)

  type Lane = a: Bits | |a.b| == 64 witness Bits(seq(64, _ => false))

  function Xor(a: Lane, b: Lane): Lane {
    Bits(seq(64, z requires 0 <= z < 64 => a.b[z] != b.b[z]))
  }

  function Or(a: Lane, b: Lane): Lane {
    Bits(seq(64, z requires 0 <= z < 64 => a.b[z] || b.b[z]))
  }

  function Xor5(a: Lane, b: Lane, c: Lane, d: Lane, e: Lane): Lane {
    Xor(Xor(Xor(Xor(a, b), c), d), e)
  }

  function ChiLane(a: Lane, b: Lane, c: Lane): Lane {
    Bits(seq(64, z requires 0 <= z < 64 => a.b[z] != (!b.b[z] && c.b[z])))
  }

  function Shl(a: Lane, n: nat): Lane
    requires n <= 64
  {
    Bits(seq(n, _ => false) + a.b[..64 - n])
  }

  function Shr(a: Lane, n: nat): Lane
    requires n <= 64
  {
    Bits(a.b[n..] + seq(n, _ => false))
  }

  function Rol(a: Lane, n: nat): Lane
    requires n < 64
  {
    Or(Shl(a, n), Shr(a, 64 - n))
  }

  lemma RolBit(a: Lane, n: nat, z: nat)
    requires n < 64 && z < 64
    ensures Rol(a, n).b[z] == a.b[(z + 64 - n) % 64]
  {
  }

  type Index = i: nat | i < 5

  function Mod5(n: nat): Index { n % 5 }

  datatype Plane = Plane(l0: Lane, l1: Lane, l2: Lane, l3: Lane, l4: Lane) {
    function At(x: Index): Lane {
      match x
      case 0 => l0
      case 1 => l1
      case 2 => l2
      case 3 => l3
      case _ => l4
    }
  }

  /** A state array of 5 by 5 lanes. */
  datatype State = State(p0: Plane, p1: Plane, p2: Plane, p3: Plane, p4: Plane) {
    function At(x: Index, y: Index): Lane {
      match y
      case 0 => p0.At(x)
      case 1 => p1.At(x)
      case 2 => p2.At(x)
      case 3 => p3.At(x)
      case _ => p4.At(x)
    }
  }

  function BuildPlane(f: (Index, Index) -> Lane, y: Index): Plane {
    Plane(f(0, y), f(1, y), f(2, y), f(3, y), f(4, y))
  }

  /** The state array whose lane (x, y) is f(x, y). */
  function Build(f: (Index, Index) -> Lane): State {
    State(BuildPlane(f, 0), BuildPlane(f, 1), BuildPlane(f, 2), BuildPlane(f, 3), BuildPlane(f, 4))
  }

  function Column(a: State, x: Index): Lane {
    Xor5(a.At(x, 0), a.At(x, 1), a.At(x, 2), a.At(x, 3), a.At(x, 4))
  }

  function ThetaEffect(a: State, x: Index): Lane {
    Xor(Column(a, Mod5(x + 4)), Rol(Column(a, Mod5(x + 1)), 1))
  }

  function Theta(a: State): State {
    Build((x: Index, y: Index) => Xor(a.At(x, y), ThetaEffect(a, x)))
  }

  function RhoOffset(x: Index, y: Index): (n: nat)
    ensures n < 64
  {
    [[0, 1, 62, 28, 27],
     [36, 44, 6, 55, 20],
     [3, 10, 43, 25, 39],
     [41, 45, 15, 21, 8],
     [18, 2, 61, 56, 14]][y][x]
  }

  function Rho(a: State): State {
    Build((x: Index, y: Index) => Rol(a.At(x, y), RhoOffset(x, y)))
  }

  /** Pi only moves lanes; PiAt is the rule of the standard. */
  function Pi(a: State): State {
    State(Plane(a.p0.l0, a.p1.l1, a.p2.l2, a.p3.l3, a.p4.l4),
          Plane(a.p0.l3, a.p1.l4, a.p2.l0, a.p3.l1, a.p4.l2),
          Plane(a.p0.l1, a.p1.l2, a.p2.l3, a.p3.l4, a.p4.l0),
          Plane(a.p0.l4, a.p1.l0, a.p2.l1, a.p3.l2, a.p4.l3),
          Plane(a.p0.l2, a.p1.l3, a.p2.l4, a.p3.l0, a.p4.l1))
  }

  /** Chi changes each plane on its own: lane x takes in lanes x+1 and x+2 (mod 5). */
  function ChiPlane(p: Plane): Plane {
    Plane(ChiLane(p.l0, p.l1, p.l2), ChiLane(p.l1, p.l2, p.l3), ChiLane(p.l2, p.l3, p.l4),
          ChiLane(p.l3, p.l4, p.l0), ChiLane(p.l4, p.l0, p.l1))
  }

  function Chi(a: State): State {
    State(ChiPlane(a.p0), ChiPlane(a.p1), ChiPlane(a.p2), ChiPlane(a.p3), ChiPlane(a.p4))
  }

  function Iota(a: State, rc: Lane): State {
    a.(p0 := a.p0.(l0 := Xor(a.p0.l0, rc)))
  }

  function Round(a: State, rc: Lane): State {
    Iota(Chi(Pi(Rho(Theta(a)))), rc)
  }

  type Storage = s: seq<Lane> | |s| == 25 witness seq(25, _ => Bits(seq(64, _ => false)))

  /** Storage read row by row: the source's a00 to a44. */
  function View(s: Storage): State {
    State(Plane(s[0], s[1], s[2], s[3], s[4]),
          Plane(s[5], s[6], s[7], s[8], s[9]),
          Plane(s[10], s[11], s[12], s[13], s[14]),
          Plane(s[15], s[16], s[17], s[18], s[19]),
          Plane(s[20], s[21], s[22], s[23], s[24]))
  }

  /** The move that one in-place round makes: lane (x, y) comes from lane (x, x + 2y). */
  function Relabel(a: State): State {
    State(Plane(a.p0.l0, a.p1.l1, a.p2.l2, a.p3.l3, a.p4.l4),
          Plane(a.p2.l0, a.p3.l1, a.p4.l2, a.p0.l3, a.p1.l4),
          Plane(a.p4.l0, a.p0.l1, a.p1.l2, a.p2.l3, a.p3.l4),
          Plane(a.p1.l0, a.p2.l1, a.p3.l2, a.p4.l3, a.p0.l4),
          Plane(a.p3.l0, a.p4.l1, a.p0.l2, a.p1.l3, a.p2.l4))
  }

  /** The state array that storage stands for after k in-place rounds. */
  function Logical(s: Storage, k: nat): State {
    if k == 0 then View(s) else Relabel(Logical(s, k - 1))
  }

  lemma RelabelFourTimes(a: State)
    ensures Relabel(Relabel(Relabel(Relabel(a)))) == a
  {
  }

  lemma RolZero(a: Lane)
    ensures Rol(a, 0) == a
  {
  }

  /** The five theta effects of a state, by column. */
  function Effects(a: State): Plane {
    Plane(Xor(Column(a, 4), Rol(Column(a, 1), 1)), Xor(Column(a, 0), Rol(Column(a, 2), 1)),
          Xor(Column(a, 1), Rol(Column(a, 3), 1)), Xor(Column(a, 2), Rol(Column(a, 4), 1)),
          Xor(Column(a, 3), Rol(Column(a, 0), 1)))
  }

  // The five lanes that theta, rho and pi bring to each plane, d being the theta effects.
  function Fetched0(a: State, d: Plane): Plane {
    Plane(Xor(a.p0.l0, d.l0), Rol(Xor(a.p1.l1, d.l1), 44), Rol(Xor(a.p2.l2, d.l2), 43),
          Rol(Xor(a.p3.l3, d.l3), 21), Rol(Xor(a.p4.l4, d.l4), 14))
  }

  function Fetched1(a: State, d: Plane): Plane {
    Plane(Rol(Xor(a.p0.l3, d.l3), 28), Rol(Xor(a.p1.l4, d.l4), 20), Rol(Xor(a.p2.l0, d.l0), 3),
          Rol(Xor(a.p3.l1, d.l1), 45), Rol(Xor(a.p4.l2, d.l2), 61))
  }

  function Fetched2(a: State, d: Plane): Plane {
    Plane(Rol(Xor(a.p0.l1, d.l1), 1), Rol(Xor(a.p1.l2, d.l2), 6), Rol(Xor(a.p2.l3, d.l3), 25),
          Rol(Xor(a.p3.l4, d.l4), 8), Rol(Xor(a.p4.l0, d.l0), 18))
  }

  function Fetched3(a: State, d: Plane): Plane {
    Plane(Rol(Xor(a.p0.l4, d.l4), 27), Rol(Xor(a.p1.l0, d.l0), 36), Rol(Xor(a.p2.l1, d.l1), 10),
          Rol(Xor(a.p3.l2, d.l2), 15), Rol(Xor(a.p4.l3, d.l3), 56))
  }

  function Fetched4(a: State, d: Plane): Plane {
    Plane(Rol(Xor(a.p0.l2, d.l2), 62), Rol(Xor(a.p1.l3, d.l3), 55), Rol(Xor(a.p2.l4, d.l4), 39),
          Rol(Xor(a.p3.l0, d.l0), 41), Rol(Xor(a.p4.l1, d.l1), 2))
  }

  lemma PiAt(a: State, x: Index, y: Index)
    ensures Pi(a).At(x, y) == a.At(Mod5(x + 3 * y), x)
  {
  }

  lemma ChiAt(a: State, x: Index, y: Index)
    ensures Chi(a).At(x, y) == ChiLane(a.At(x, y), a.At(Mod5(x + 1), y), a.At(Mod5(x + 2), y))
  {
    hide ChiLane;
  }

  lemma ThetaForm(a: State)
    ensures Theta(a) == State(XorPlane(a.p0, Effects(a)), XorPlane(a.p1, Effects(a)), XorPlane(a.p2, Effects(a)),
                              XorPlane(a.p3, Effects(a)), XorPlane(a.p4, Effects(a)))
  {
    hide Xor, Rol, Column;
  }

  function XorPlane(p: Plane, d: Plane): Plane {
    Plane(Xor(p.l0, d.l0), Xor(p.l1, d.l1), Xor(p.l2, d.l2), Xor(p.l3, d.l3), Xor(p.l4, d.l4))
  }

  lemma RhoForm(a: State)
    ensures Rho(a) == State(
      Plane(a.p0.l0, Rol(a.p0.l1, 1), Rol(a.p0.l2, 62), Rol(a.p0.l3, 28), Rol(a.p0.l4, 27)),
      Plane(Rol(a.p1.l0, 36), Rol(a.p1.l1, 44), Rol(a.p1.l2, 6), Rol(a.p1.l3, 55), Rol(a.p1.l4, 20)),
      Plane(Rol(a.p2.l0, 3), Rol(a.p2.l1, 10), Rol(a.p2.l2, 43), Rol(a.p2.l3, 25), Rol(a.p2.l4, 39)),
      Plane(Rol(a.p3.l0, 41), Rol(a.p3.l1, 45), Rol(a.p3.l2, 15), Rol(a.p3.l3, 21), Rol(a.p3.l4, 8)),
      Plane(Rol(a.p4.l0, 18), Rol(a.p4.l1, 2), Rol(a.p4.l2, 61), Rol(a.p4.l3, 56), Rol(a.p4.l4, 14)))
  {
    hide Rol;
    RolZero(a.p0.l0);
  }

  lemma FetchedIsPi(a: State)
    ensures var d := Effects(a);
            Pi(Rho(Theta(a))) == State(Fetched0(a, d), Fetched1(a, d), Fetched2(a, d), Fetched3(a, d), Fetched4(a, d))
  {
    hide Rho, Theta, Effects, Xor, Rol;
    ThetaForm(a);
    RhoForm(Theta(a));
  }

  /** A round with every index worked out. */
  function FlatRound(a: State, rc: Lane): State {
    var d := Effects(a);
    var q := ChiPlane(Fetched0(a, d));
    State(q.(l0 := Xor(q.l0, rc)), ChiPlane(Fetched1(a, d)), ChiPlane(Fetched2(a, d)),
          ChiPlane(Fetched3(a, d)), ChiPlane(Fetched4(a, d)))
  }

  lemma FlatRoundIsRound(a: State, rc: Lane)
    ensures FlatRound(a, rc) == Round(a, rc)
  {
    hide Theta, Rho, Pi, Fetched0, Fetched1, Fetched2, Fetched3, Fetched4, Effects, Xor, ChiPlane;
    FetchedIsPi(a);
  }

  /** Stores one chi row: five storage lanes from five fetched ones. */
  method MixRow(s: array<Lane>, i0: nat, i1: nat, i2: nat, i3: nat, i4: nat,
                b0: Lane, b1: Lane, b2: Lane, b3: Lane, b4: Lane)
    requires s.Length >= 25 && i0 % 5 == 0 && i1 % 5 == 1 && i2 % 5 == 2 && i3 % 5 == 3 && i4 % 5 == 4
    requires i0 < 25 && i1 < 25 && i2 < 25 && i3 < 25 && i4 < 25
    modifies s
    ensures Plane(s[i0], s[i1], s[i2], s[i3], s[i4]) == ChiPlane(Plane(b0, b1, b2, b3, b4))
    ensures forall i :: 0 <= i < s.Length && i != i0 && i != i1 && i != i2 && i != i3 && i != i4 ==> s[i] == old(s[i])
  {
    hide ChiLane;
    s[i0] := ChiLane(b0, b1, b2);
    s[i1] := ChiLane(b1, b2, b3);
    s[i2] := ChiLane(b2, b3, b4);
    s[i3] := ChiLane(b3, b4, b0);
    s[i4] := ChiLane(b4, b0, b1);
  }

  lemma Layout0(s: Storage)
    ensures Logical(s, 0) == State(Plane(s[0], s[1], s[2], s[3], s[4]),
                                    Plane(s[5], s[6], s[7], s[8], s[9]),
                                    Plane(s[10], s[11], s[12], s[13], s[14]),
                                    Plane(s[15], s[16], s[17], s[18], s[19]),
                                    Plane(s[20], s[21], s[22], s[23], s[24]))
  {
  }

  lemma Layout1(s: Storage)
    ensures Logical(s, 1) == State(Plane(s[0], s[6], s[12], s[18], s[24]),
                                    Plane(s[10], s[16], s[22], s[3], s[9]),
                                    Plane(s[20], s[1], s[7], s[13], s[19]),
                                    Plane(s[5], s[11], s[17], s[23], s[4]),
                                    Plane(s[15], s[21], s[2], s[8], s[14]))
  {
    Layout0(s);
  }

  lemma Layout2(s: Storage)
    ensures Logical(s, 2) == State(Plane(s[0], s[16], s[7], s[23], s[14]),
                                    Plane(s[20], s[11], s[2], s[18], s[9]),
                                    Plane(s[15], s[6], s[22], s[13], s[4]),
                                    Plane(s[10], s[1], s[17], s[8], s[24]),
                                    Plane(s[5], s[21], s[12], s[3], s[19]))
  {
    Layout1(s);
  }

  lemma Layout3(s: Storage)
    ensures Logical(s, 3) == State(Plane(s[0], s[11], s[22], s[8], s[19]),
                                    Plane(s[15], s[1], s[12], s[23], s[9]),
                                    Plane(s[5], s[16], s[2], s[13], s[24]),
                                    Plane(s[20], s[6], s[17], s[3], s[14]),
                                    Plane(s[10], s[21], s[7], s[18], s[4]))
  {
    Layout2(s);
  }

  lemma Layout4(s: Storage)
    ensures Logical(s, 4) == State(Plane(s[0], s[1], s[2], s[3], s[4]),
                                    Plane(s[5], s[6], s[7], s[8], s[9]),
                                    Plane(s[10], s[11], s[12], s[13], s[14]),
                                    Plane(s[15], s[16], s[17], s[18], s[19]),
                                    Plane(s[20], s[21], s[22], s[23], s[24]))
  {
    Layout3(s);
  }

  // ----- the step mappings in the bit notation of the standard

  predicate Parity(a: State, x: Index, z: nat)
    requires z < 64
  {
    (((a.At(x, 0).b[z] != a.At(x, 1).b[z]) != a.At(x, 2).b[z]) != a.At(x, 3).b[z]) != a.At(x, 4).b[z]
  }

  /** Section 3.2.1: each bit takes in the parities of two columns. */
  lemma ThetaBit(a: State, x: Index, y: Index, z: nat)
    requires z < 64
    ensures Theta(a).At(x, y).b[z]
         == (a.At(x, y).b[z] != (Parity(a, Mod5(x + 4), z) != Parity(a, Mod5(x + 1), (z + 63) % 64)))
  {
    ThetaAt(a, x, y);
    hide Theta;
    RolBit(Column(a, Mod5(x + 1)), 1, z);
    ColumnBit(a, Mod5(x + 4), z);
    ColumnBit(a, Mod5(x + 1), (z + 63) % 64);
    hide Rol, Column, Parity, Mod5;
  }

  lemma ColumnBit(a: State, x: Index, z: nat)
    requires z < 64
    ensures Column(a, x).b[z] == Parity(a, x, z)
  {
  }

  lemma ThetaAt(a: State, x: Index, y: Index)
    ensures Theta(a).At(x, y) == Xor(a.At(x, y), ThetaEffect(a, x))
  {
    hide Xor, ThetaEffect;
  }

  /** Section 3.2.2: where the walk of rho stands after t steps from lane (1, 0). */
  function Walk(t: nat): (p: (nat, nat))
    ensures p.0 < 5 && p.1 < 5
  {
    if t == 0 then (1, 0) else
    var (x, y) := Walk(t - 1);
    (y, (2 * x + 3 * y) % 5)
  }

  /** Lane (0, 0) stays; the lane that the walk meets at step t turns by (t + 1)(t + 2)/2. */
  lemma RhoBit(a: State, x: Index, y: Index, z: nat)
    requires z < 64
    ensures var n := if x == 0 && y == 0 then 0
                     else var t := StepTo(x, y); (t + 1) * (t + 2) / 2;
            Rho(a).At(x, y).b[z] == a.At(x, y).b[(z + 64 - n % 64) % 64]
    ensures (x, y) != (0, 0) ==> Walk(StepTo(x, y)) == (x, y)
  {
    hide Rho, Rol, RhoOffset, Walk, StepTo;
    RhoAt(a, x, y);
    OffsetByWalk(x, y);
    RolBit(a.At(x, y), RhoOffset(x, y), z);
  }

  lemma RhoAt(a: State, x: Index, y: Index)
    ensures Rho(a).At(x, y) == Rol(a.At(x, y), RhoOffset(x, y))
  {
    hide Rol, RhoOffset;
  }

  function StepTo(x: Index, y: Index): nat {
    [[0, 0, 18, 6, 12],
     [7, 23, 2, 9, 22],
     [1, 3, 17, 16, 20],
     [13, 8, 4, 5, 15],
     [19, 10, 21, 14, 11]][y][x]
  }

  lemma OffsetByWalk(x: Index, y: Index)
    ensures RhoOffset(0, 0) == 0
    ensures (x, y) != (0, 0) ==>
      Walk(StepTo(x, y)) == (x, y) && RhoOffset(x, y) == (StepTo(x, y) + 1) * (StepTo(x, y) + 2) / 2 % 64
  {
    WalkTable();
    hide Walk;
  }

  lemma WalkTable()
    ensures Walk(0) == (1, 0) && Walk(1) == (0, 2) && Walk(2) == (2, 1) && Walk(3) == (1, 2)
    ensures Walk(4) == (2, 3) && Walk(5) == (3, 3) && Walk(6) == (3, 0) && Walk(7) == (0, 1)
    ensures Walk(8) == (1, 3) && Walk(9) == (3, 1) && Walk(10) == (1, 4) && Walk(11) == (4, 4)
    ensures Walk(12) == (4, 0) && Walk(13) == (0, 3) && Walk(14) == (3, 4) && Walk(15) == (4, 3)
    ensures Walk(16) == (3, 2) && Walk(17) == (2, 2) && Walk(18) == (2, 0) && Walk(19) == (0, 4)
    ensures Walk(20) == (4, 2) && Walk(21) == (2, 4) && Walk(22) == (4, 1) && Walk(23) == (1, 1)
  {
  }

  /** Section 3.2.4. */
  lemma ChiBit(a: State, x: Index, y: Index, z: nat)
    requires z < 64
    ensures Chi(a).At(x, y).b[z]
         == (a.At(x, y).b[z] != (!a.At(Mod5(x + 1), y).b[z] && a.At(Mod5(x + 2), y).b[z]))
  {
    ChiAt(a, x, y);
    hide Chi, Mod5;
  }

  /** The first k rounds of the permutation (section 3.3). */
  function Rounds(a: State, k: nat): State {
    if k == 0 then a else Round(Rounds(a, k - 1), Bits(RoundConstant(k - 1)))
  }

  method RoundA(s: array<Lane>, rc: Lane)
    requires s.Length >= 25
    modifies s
    ensures Logical(s[..25], 1) == Round(Logical(old(s[..25]), 0), rc)
    ensures s[25..] == old(s[25..])
  {
    hide Xor, Xor5, ChiLane, ChiPlane, Rol, Round, Relabel, Logical;
    ghost var a := State(Plane(s[0], s[1], s[2], s[3], s[4]),
                         Plane(s[5], s[6], s[7], s[8], s[9]),
                         Plane(s[10], s[11], s[12], s[13], s[14]),
                         Plane(s[15], s[16], s[17], s[18], s[19]),
                         Plane(s[20], s[21], s[22], s[23], s[24]));
    assert a == Logical(s[..25], 0) by { Layout0(s[..25]); }
    var c0 := Xor5(s[0], s[5], s[10], s[15], s[20]);
    var c1 := Xor5(s[1], s[6], s[11], s[16], s[21]);
    var c2 := Xor5(s[2], s[7], s[12], s[17], s[22]);
    var c3 := Xor5(s[3], s[8], s[13], s[18], s[23]);
    var c4 := Xor5(s[4], s[9], s[14], s[19], s[24]);
    var d0 := Xor(c4, Rol(c1, 1));
    var d1 := Xor(c0, Rol(c2, 1));
    var d2 := Xor(c1, Rol(c3, 1));
    var d3 := Xor(c2, Rol(c4, 1));
    var d4 := Xor(c3, Rol(c0, 1));
    ghost var d := Plane(d0, d1, d2, d3, d4);
    assert d == Effects(a);

    var b0 := Xor(s[0], d0);
    var b1 := Rol(Xor(s[6], d1), 44);
    var b2 := Rol(Xor(s[12], d2), 43);
    var b3 := Rol(Xor(s[18], d3), 21);
    var b4 := Rol(Xor(s[24], d4), 14);
    assert Plane(b0, b1, b2, b3, b4) == Fetched0(a, d);
    MixRow(s, 0, 6, 12, 18, 24, b0, b1, b2, b3, b4);
    s[0] := Xor(s[0], rc);

    b2 := Rol(Xor(s[10], d0), 3);
    b3 := Rol(Xor(s[16], d1), 45);
    b4 := Rol(Xor(s[22], d2), 61);
    b0 := Rol(Xor(s[3], d3), 28);
    b1 := Rol(Xor(s[9], d4), 20);
    assert Plane(b0, b1, b2, b3, b4) == Fetched1(a, d);
    MixRow(s, 10, 16, 22, 3, 9, b0, b1, b2, b3, b4);

    b4 := Rol(Xor(s[20], d0), 18);
    b0 := Rol(Xor(s[1], d1), 1);
    b1 := Rol(Xor(s[7], d2), 6);
    b2 := Rol(Xor(s[13], d3), 25);
    b3 := Rol(Xor(s[19], d4), 8);
    assert Plane(b0, b1, b2, b3, b4) == Fetched2(a, d);
    MixRow(s, 20, 1, 7, 13, 19, b0, b1, b2, b3, b4);

    b1 := Rol(Xor(s[5], d0), 36);
    b2 := Rol(Xor(s[11], d1), 10);
    b3 := Rol(Xor(s[17], d2), 15);
    b4 := Rol(Xor(s[23], d3), 56);
    b0 := Rol(Xor(s[4], d4), 27);
    assert Plane(b0, b1, b2, b3, b4) == Fetched3(a, d);
    MixRow(s, 5, 11, 17, 23, 4, b0, b1, b2, b3, b4);

    b3 := Rol(Xor(s[15], d0), 41);
    b4 := Rol(Xor(s[21], d1), 2);
    b0 := Rol(Xor(s[2], d2), 62);
    b1 := Rol(Xor(s[8], d3), 55);
    b2 := Rol(Xor(s[14], d4), 39);
    assert Plane(b0, b1, b2, b3, b4) == Fetched4(a, d);
    MixRow(s, 15, 21, 2, 8, 14, b0, b1, b2, b3, b4);

    ghost var r := State(Plane(s[0], s[6], s[12], s[18], s[24]),
                         Plane(s[10], s[16], s[22], s[3], s[9]),
                         Plane(s[20], s[1], s[7], s[13], s[19]),
                         Plane(s[5], s[11], s[17], s[23], s[4]),
                         Plane(s[15], s[21], s[2], s[8], s[14]));
    assert r == Logical(s[..25], 1) by { Layout1(s[..25]); }
    assert r == FlatRound(a, rc);
    FlatRoundIsRound(a, rc);
  }

  method RoundB(s: array<Lane>, rc: Lane)
    requires s.Length >= 25
    modifies s
    ensures Logical(s[..25], 2) == Round(Logical(old(s[..25]), 1), rc)
    ensures s[25..] == old(s[25..])
  {
    hide Xor, Xor5, ChiLane, ChiPlane, Rol, Round, Relabel, Logical;
    ghost var a := State(Plane(s[0], s[6], s[12], s[18], s[24]),
                         Plane(s[10], s[16], s[22], s[3], s[9]),
                         Plane(s[20], s[1], s[7], s[13], s[19]),
                         Plane(s[5], s[11], s[17], s[23], s[4]),
                         Plane(s[15], s[21], s[2], s[8], s[14]));
    assert a == Logical(s[..25], 1) by { Layout1(s[..25]); }
    var c0 := Xor5(s[0], s[10], s[20], s[5], s[15]);
    var c1 := Xor5(s[6], s[16], s[1], s[11], s[21]);
    var c2 := Xor5(s[12], s[22], s[7], s[17], s[2]);
    var c3 := Xor5(s[18], s[3], s[13], s[23], s[8]);
    var c4 := Xor5(s[24], s[9], s[19], s[4], s[14]);
    var d0 := Xor(c4, Rol(c1, 1));
    var d1 := Xor(c0, Rol(c2, 1));
    var d2 := Xor(c1, Rol(c3, 1));
    var d3 := Xor(c2, Rol(c4, 1));
    var d4 := Xor(c3, Rol(c0, 1));
    ghost var d := Plane(d0, d1, d2, d3, d4);
    assert d == Effects(a);

    var b0 := Xor(s[0], d0);
    var b1 := Rol(Xor(s[16], d1), 44);
    var b2 := Rol(Xor(s[7], d2), 43);
    var b3 := Rol(Xor(s[23], d3), 21);
    var b4 := Rol(Xor(s[14], d4), 14);
    assert Plane(b0, b1, b2, b3, b4) == Fetched0(a, d);
    MixRow(s, 0, 16, 7, 23, 14, b0, b1, b2, b3, b4);
    s[0] := Xor(s[0], rc);

    b2 := Rol(Xor(s[20], d0), 3);
    b3 := Rol(Xor(s[11], d1), 45);
    b4 := Rol(Xor(s[2], d2), 61);
    b0 := Rol(Xor(s[18], d3), 28);
    b1 := Rol(Xor(s[9], d4), 20);
    assert Plane(b0, b1, b2, b3, b4) == Fetched1(a, d);
    MixRow(s, 20, 11, 2, 18, 9, b0, b1, b2, b3, b4);

    b4 := Rol(Xor(s[15], d0), 18);
    b0 := Rol(Xor(s[6], d1), 1);
    b1 := Rol(Xor(s[22], d2), 6);
    b2 := Rol(Xor(s[13], d3), 25);
    b3 := Rol(Xor(s[4], d4), 8);
    assert Plane(b0, b1, b2, b3, b4) == Fetched2(a, d);
    MixRow(s, 15, 6, 22, 13, 4, b0, b1, b2, b3, b4);

    b1 := Rol(Xor(s[10], d0), 36);
    b2 := Rol(Xor(s[1], d1), 10);
    b3 := Rol(Xor(s[17], d2), 15);
    b4 := Rol(Xor(s[8], d3), 56);
    b0 := Rol(Xor(s[24], d4), 27);
    assert Plane(b0, b1, b2, b3, b4) == Fetched3(a, d);
    MixRow(s, 10, 1, 17, 8, 24, b0, b1, b2, b3, b4);

    b3 := Rol(Xor(s[5], d0), 41);
    b4 := Rol(Xor(s[21], d1), 2);
    b0 := Rol(Xor(s[12], d2), 62);
    b1 := Rol(Xor(s[3], d3), 55);
    b2 := Rol(Xor(s[19], d4), 39);
    assert Plane(b0, b1, b2, b3, b4) == Fetched4(a, d);
    MixRow(s, 5, 21, 12, 3, 19, b0, b1, b2, b3, b4);

    ghost var r := State(Plane(s[0], s[16], s[7], s[23], s[14]),
                         Plane(s[20], s[11], s[2], s[18], s[9]),
                         Plane(s[15], s[6], s[22], s[13], s[4]),
                         Plane(s[10], s[1], s[17], s[8], s[24]),
                         Plane(s[5], s[21], s[12], s[3], s[19]));
    assert r == Logical(s[..25], 2) by { Layout2(s[..25]); }
    assert r == FlatRound(a, rc);
    FlatRoundIsRound(a, rc);
  }

  method RoundC(s: array<Lane>, rc: Lane)
    requires s.Length >= 25
    modifies s
    ensures Logical(s[..25], 3) == Round(Logical(old(s[..25]), 2), rc)
    ensures s[25..] == old(s[25..])
  {
    hide Xor, Xor5, ChiLane, ChiPlane, Rol, Round, Relabel, Logical;
    ghost var a := State(Plane(s[0], s[16], s[7], s[23], s[14]),
                         Plane(s[20], s[11], s[2], s[18], s[9]),
                         Plane(s[15], s[6], s[22], s[13], s[4]),
                         Plane(s[10], s[1], s[17], s[8], s[24]),
                         Plane(s[5], s[21], s[12], s[3], s[19]));
    assert a == Logical(s[..25], 2) by { Layout2(s[..25]); }
    var c0 := Xor5(s[0], s[20], s[15], s[10], s[5]);
    var c1 := Xor5(s[16], s[11], s[6], s[1], s[21]);
    var c2 := Xor5(s[7], s[2], s[22], s[17], s[12]);
    var c3 := Xor5(s[23], s[18], s[13], s[8], s[3]);
    var c4 := Xor5(s[14], s[9], s[4], s[24], s[19]);
    var d0 := Xor(c4, Rol(c1, 1));
    var d1 := Xor(c0, Rol(c2, 1));
    var d2 := Xor(c1, Rol(c3, 1));
    var d3 := Xor(c2, Rol(c4, 1));
    var d4 := Xor(c3, Rol(c0, 1));
    ghost var d := Plane(d0, d1, d2, d3, d4);
    assert d == Effects(a);

    var b0 := Xor(s[0], d0);
    var b1 := Rol(Xor(s[11], d1), 44);
    var b2 := Rol(Xor(s[22], d2), 43);
    var b3 := Rol(Xor(s[8], d3), 21);
    var b4 := Rol(Xor(s[19], d4), 14);
    assert Plane(b0, b1, b2, b3, b4) == Fetched0(a, d);
    MixRow(s, 0, 11, 22, 8, 19, b0, b1, b2, b3, b4);
    s[0] := Xor(s[0], rc);

    b2 := Rol(Xor(s[15], d0), 3);
    b3 := Rol(Xor(s[1], d1), 45);
    b4 := Rol(Xor(s[12], d2), 61);
    b0 := Rol(Xor(s[23], d3), 28);
    b1 := Rol(Xor(s[9], d4), 20);
    assert Plane(b0, b1, b2, b3, b4) == Fetched1(a, d);
    MixRow(s, 15, 1, 12, 23, 9, b0, b1, b2, b3, b4);

    b4 := Rol(Xor(s[5], d0), 18);
    b0 := Rol(Xor(s[16], d1), 1);
    b1 := Rol(Xor(s[2], d2), 6);
    b2 := Rol(Xor(s[13], d3), 25);
    b3 := Rol(Xor(s[24], d4), 8);
    assert Plane(b0, b1, b2, b3, b4) == Fetched2(a, d);
    MixRow(s, 5, 16, 2, 13, 24, b0, b1, b2, b3, b4);

    b1 := Rol(Xor(s[20], d0), 36);
    b2 := Rol(Xor(s[6], d1), 10);
    b3 := Rol(Xor(s[17], d2), 15);
    b4 := Rol(Xor(s[3], d3), 56);
    b0 := Rol(Xor(s[14], d4), 27);
    assert Plane(b0, b1, b2, b3, b4) == Fetched3(a, d);
    MixRow(s, 20, 6, 17, 3, 14, b0, b1, b2, b3, b4);

    b3 := Rol(Xor(s[10], d0), 41);
    b4 := Rol(Xor(s[21], d1), 2);
    b0 := Rol(Xor(s[7], d2), 62);
    b1 := Rol(Xor(s[18], d3), 55);
    b2 := Rol(Xor(s[4], d4), 39);
    assert Plane(b0, b1, b2, b3, b4) == Fetched4(a, d);
    MixRow(s, 10, 21, 7, 18, 4, b0, b1, b2, b3, b4);

    ghost var r := State(Plane(s[0], s[11], s[22], s[8], s[19]),
                         Plane(s[15], s[1], s[12], s[23], s[9]),
                         Plane(s[5], s[16], s[2], s[13], s[24]),
                         Plane(s[20], s[6], s[17], s[3], s[14]),
                         Plane(s[10], s[21], s[7], s[18], s[4]));
    assert r == Logical(s[..25], 3) by { Layout3(s[..25]); }
    assert r == FlatRound(a, rc);
    FlatRoundIsRound(a, rc);
  }

  method RoundD(s: array<Lane>, rc: Lane)
    requires s.Length >= 25
    modifies s
    ensures Logical(s[..25], 4) == Round(Logical(old(s[..25]), 3), rc)
    ensures s[25..] == old(s[25..])
  {
    hide Xor, Xor5, ChiLane, ChiPlane, Rol, Round, Relabel, Logical;
    ghost var a := State(Plane(s[0], s[11], s[22], s[8], s[19]),
                         Plane(s[15], s[1], s[12], s[23], s[9]),
                         Plane(s[5], s[16], s[2], s[13], s[24]),
                         Plane(s[20], s[6], s[17], s[3], s[14]),
                         Plane(s[10], s[21], s[7], s[18], s[4]));
    assert a == Logical(s[..25], 3) by { Layout3(s[..25]); }
    var c0 := Xor5(s[0], s[15], s[5], s[20], s[10]);
    var c1 := Xor5(s[11], s[1], s[16], s[6], s[21]);
    var c2 := Xor5(s[22], s[12], s[2], s[17], s[7]);
    var c3 := Xor5(s[8], s[23], s[13], s[3], s[18]);
    var c4 := Xor5(s[19], s[9], s[24], s[14], s[4]);
    var d0 := Xor(c4, Rol(c1, 1));
    var d1 := Xor(c0, Rol(c2, 1));
    var d2 := Xor(c1, Rol(c3, 1));
    var d3 := Xor(c2, Rol(c4, 1));
    var d4 := Xor(c3, Rol(c0, 1));
    ghost var d := Plane(d0, d1, d2, d3, d4);
    assert d == Effects(a);

    var b0 := Xor(s[0], d0);
    var b1 := Rol(Xor(s[1], d1), 44);
    var b2 := Rol(Xor(s[2], d2), 43);
    var b3 := Rol(Xor(s[3], d3), 21);
    var b4 := Rol(Xor(s[4], d4), 14);
    assert Plane(b0, b1, b2, b3, b4) == Fetched0(a, d);
    MixRow(s, 0, 1, 2, 3, 4, b0, b1, b2, b3, b4);
    s[0] := Xor(s[0], rc);

    b2 := Rol(Xor(s[5], d0), 3);
    b3 := Rol(Xor(s[6], d1), 45);
    b4 := Rol(Xor(s[7], d2), 61);
    b0 := Rol(Xor(s[8], d3), 28);
    b1 := Rol(Xor(s[9], d4), 20);
    assert Plane(b0, b1, b2, b3, b4) == Fetched1(a, d);
    MixRow(s, 5, 6, 7, 8, 9, b0, b1, b2, b3, b4);

    b4 := Rol(Xor(s[10], d0), 18);
    b0 := Rol(Xor(s[11], d1), 1);
    b1 := Rol(Xor(s[12], d2), 6);
    b2 := Rol(Xor(s[13], d3), 25);
    b3 := Rol(Xor(s[14], d4), 8);
    assert Plane(b0, b1, b2, b3, b4) == Fetched2(a, d);
    MixRow(s, 10, 11, 12, 13, 14, b0, b1, b2, b3, b4);

    b1 := Rol(Xor(s[15], d0), 36);
    b2 := Rol(Xor(s[16], d1), 10);
    b3 := Rol(Xor(s[17], d2), 15);
    b4 := Rol(Xor(s[18], d3), 56);
    b0 := Rol(Xor(s[19], d4), 27);
    assert Plane(b0, b1, b2, b3, b4) == Fetched3(a, d);
    MixRow(s, 15, 16, 17, 18, 19, b0, b1, b2, b3, b4);

    b3 := Rol(Xor(s[20], d0), 41);
    b4 := Rol(Xor(s[21], d1), 2);
    b0 := Rol(Xor(s[22], d2), 62);
    b1 := Rol(Xor(s[23], d3), 55);
    b2 := Rol(Xor(s[24], d4), 39);
    assert Plane(b0, b1, b2, b3, b4) == Fetched4(a, d);
    MixRow(s, 20, 21, 22, 23, 24, b0, b1, b2, b3, b4);

    ghost var r := State(Plane(s[0], s[1], s[2], s[3], s[4]),
                         Plane(s[5], s[6], s[7], s[8], s[9]),
                         Plane(s[10], s[11], s[12], s[13], s[14]),
                         Plane(s[15], s[16], s[17], s[18], s[19]),
                         Plane(s[20], s[21], s[22], s[23], s[24]));
    assert r == Logical(s[..25], 4) by { Layout4(s[..25]); }
    assert r == FlatRound(a, rc);
    FlatRoundIsRound(a, rc);
  }

  /** After four in-place rounds every lane is back where it belongs. */
  lemma LayoutRestored(s: Storage)
    ensures Logical(s, 4) == Logical(s, 0) == View(s)
  {
    hide View, Relabel;
    RelabelFourTimes(View(s));
    assert Logical(s, 1) == Relabel(View(s));
    assert Logical(s, 2) == Relabel(Relabel(View(s)));
  }

  /** The whole permutation, four in-place rounds per iteration. */
  method KeccakF1600Step(s: array<Lane>)
    requires s.Length >= 25
    modifies s
    ensures View(s[..25]) == Rounds(View(old(s[..25])), 24)
    ensures s[25..] == old(s[25..])
  {
    hide Round, View, Relabel, RoundConstant, BitsOf;
    TableIsStandard();
    ghost var a := View(s[..25]);
    var i := 0;
    while i < 24
      invariant 0 <= i <= 24 && i % 4 == 0
      invariant View(s[..25]) == Rounds(a, i)
      invariant s[25..] == old(s[25..])
    {
      RoundA(s, Bits(BitsOf(RC[i], 64)));
      assert Logical(s[..25], 1) == Rounds(a, i + 1);
      RoundB(s, Bits(BitsOf(RC[i + 1], 64)));
      assert Logical(s[..25], 2) == Rounds(a, i + 2);
      RoundC(s, Bits(BitsOf(RC[i + 2], 64)));
      assert Logical(s[..25], 3) == Rounds(a, i + 3);
      RoundD(s, Bits(BitsOf(RC[i + 3], 64)));
      assert Logical(s[..25], 4) == Rounds(a, i + 4);
      LayoutRestored(s[..25]);
      i := i + 4;
    }
  }
}
