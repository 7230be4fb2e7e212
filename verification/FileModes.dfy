/** File modes as text: the lsmode() function prints them, the zipfile() aggregate reads them. */
module FileModes {
  import opened Bytes
  import opened Ctype
  import opened DosTime
  import opened Options
  import opened Remainders

  const S_IFDIR: u32 := 0x4000
  const S_IFREG: u32 := 0x8000
  const S_IFLNK: u32 := 0xa000

  const LETTER_D: byte := 100
  const LETTER_L: byte := 108
  const MINUS: byte := 45
  const UNKNOWN: byte := 63

  /** What is left of 9 permissions in front of place i of the text, as a bit. */
  function Bit(i: nat): nat
    requires 1 <= i <= 10
  {
    if i == 1 then 256 else if i == 2 then 128 else if i == 3 then 64 else if i == 4 then 32 else if i == 5 then 16
    else if i == 6 then 8 else if i == 7 then 4 else if i == 8 then 2 else 1
  }

  /** The template "-rwxrwxrwx" behind its first place. */
  function Letter(i: nat): byte {
    if i % 3 == 1 then 114 else if i % 3 == 2 then 119 else 120
  }

  /** A text that is not taken for a number. */
  type ModeString = z: seq<byte> | z == [] || !IsDigit(z[0])

  // ----- lsmode

  function FileType(mode: u32): nat {
    mode / 0x1000 % 0x10
  }

  function TypeLetter(mode: u32): byte {
    if FileType(mode) == 0xa then LETTER_L
    else if FileType(mode) == 8 then MINUS
    else if FileType(mode) == 4 then LETTER_D
    else UNKNOWN
  }

  function Permission(mode: u32, i: nat): byte
    requires 1 <= i < 10
  {
    if mode / Bit(i) % 2 == 1 then Letter(i) else MINUS
  }

  function LsMode(mode: u32): (z: ModeString)
    ensures |z| == 10 && z[0] == TypeLetter(mode) && forall i :: 1 <= i < 10 ==> z[i] == Permission(mode, i)
  {
    var z := seq(10, i requires 0 <= i < 10 => if i == 0 then TypeLetter(mode) else Permission(mode, i));
    assert z[0] == TypeLetter(mode);
    z
  }

  /** lsModeFunc, for the 32 bits of its argument. */
  method LsModeFunc(iMode: u32) returns (z: seq<byte>)
    ensures z == LsMode(iMode)
  {
    hide TypeLetter, Permission;
    z := [TypeLetter(iMode)];
    for i := 0 to 3
      invariant |z| == 1 + 3 * i && forall k :: 0 <= k < |z| ==> z[k] == LsMode(iMode)[k]
    {
      Shifted(iMode, i);
      var m := iMode / (if i == 0 then 64 else if i == 1 then 8 else 1);
      z := z + [if m / 4 % 2 == 1 then 114 else MINUS, if m / 2 % 2 == 1 then 119 else MINUS,
                if m % 2 == 1 then 120 else MINUS];
    }
  }

  /** The character c when the bit is set, and '-' otherwise. */
  function Shown(mode: u32, bit: nat, c: byte): byte
    requires bit > 0
  {
    if mode / bit % 2 == 1 then c else 45
  }

  lemma PermissionsShown(mode: u32)
    ensures Permission(mode, 1) == Shown(mode, 256, 114) && Permission(mode, 2) == Shown(mode, 128, 119)
    ensures Permission(mode, 3) == Shown(mode, 64, 120) && Permission(mode, 4) == Shown(mode, 32, 114)
    ensures Permission(mode, 5) == Shown(mode, 16, 119) && Permission(mode, 6) == Shown(mode, 8, 120)
    ensures Permission(mode, 7) == Shown(mode, 4, 114) && Permission(mode, 8) == Shown(mode, 2, 119)
    ensures Permission(mode, 9) == Shown(mode, 1, 120)
  {
  }

  /** The letter of the type and then rwx for the owner, the group and the others. */
  lemma PrintedMode(mode: u32)
    ensures var kind := mode / 0x1000 % 16;
            var letter: byte := if kind == 10 then 108 else if kind == 8 then 45 else if kind == 4 then 100 else 63;
            LsMode(mode) == [letter, Shown(mode, 256, 114), Shown(mode, 128, 119), Shown(mode, 64, 120),
                             Shown(mode, 32, 114), Shown(mode, 16, 119), Shown(mode, 8, 120),
                             Shown(mode, 4, 114), Shown(mode, 2, 119), Shown(mode, 1, 120)]
  {
    hide Permission, Shown, LsMode;
    PermissionsShown(mode);
  }

  lemma Shifted(mode: u32, i: nat)
    requires i < 3
    ensures var m := mode / (if i == 0 then 64 else if i == 1 then 8 else 1);
            && Permission(mode, 1 + 3 * i) == (if m / 4 % 2 == 1 then 114 else MINUS)
            && Permission(mode, 2 + 3 * i) == (if m / 2 % 2 == 1 then 119 else MINUS)
            && Permission(mode, 3 + 3 * i) == (if m % 2 == 1 then 120 else MINUS)
  {
    assert mode / 64 / 4 == mode / 256 && mode / 64 / 2 == mode / 128;
    assert mode / 8 / 4 == mode / 32 && mode / 8 / 2 == mode / 16;
  }

  // ----- zipfileGetMode

  /** The mode argument: a value whose text starts with a digit, or another text. */
  datatype ModeArg = Number(n: u32) | ModeText(z: ModeString)

  function TypeBits(c: byte): Option<u32> {
    if c == MINUS then Some(S_IFREG)
    else if c == LETTER_D then Some(S_IFDIR)
    else if c == LETTER_L then Some(S_IFLNK)
    else None
  }

  function Plus(n: nat, bits: Option<nat>): (r: Option<nat>)
  {
    if bits.None? then None else Some(n + bits.value)
  }

  /** The permissions from place i on; absent when a place holds neither its letter nor a minus. */
  function PermissionBits(z: seq<byte>, i: nat): (bits: Option<nat>)
    requires |z| == 10 && 1 <= i <= 10
    ensures bits.Some? ==> bits.value < if i == 10 then 1 else 2 * Bit(i)
    decreases 10 - i
  {
    if i == 10 then Some(0)
    else if z[i] == Letter(i) then Plus(Bit(i), PermissionBits(z, i + 1))
    else if z[i] == MINUS then PermissionBits(z, i + 1)
    else None
  }

  /** A mode that is given as text. */
  function ParsedMode(z: seq<byte>): (mode: Option<u32>)
  {
    if |z| != 10 || TypeBits(z[0]).None? || PermissionBits(z, 1).None? then None
    else Some(TypeBits(z[0]).value + PermissionBits(z, 1).value)
  }

  /** The mode that an argument stands for; the default for NULL. */
  function ModeOf(mode: Option<ModeArg>, bIsDir: bool): Option<u32> {
    match mode
    case None => Some(if bIsDir then S_IFDIR + 0x1ed else S_IFREG + 0x1a4)
    case Some(Number(n)) => Some(n)
    case Some(ModeText(z)) => ParsedMode(z)
  }

  method ParseMode(z: seq<byte>) returns (r: Option<u32>)
    ensures r == ParsedMode(z)
  {
    if |z| != 10 {
      return None;
    }
    var mode: u32 := 0;
    if z[0] == MINUS {
      mode := S_IFREG;
    } else if z[0] == LETTER_D {
      mode := S_IFDIR;
    } else if z[0] == LETTER_L {
      mode := S_IFLNK;
    } else {
      return None;
    }
    var bits := ReadPermissions(z);
    r := if bits.None? then None else Some(mode + bits.value);
  }

  method ReadPermissions(z: seq<byte>) returns (r: Option<nat>)
    requires |z| == 10
    ensures r == PermissionBits(z, 1)
  {
    hide Bit, Letter, PermissionBits, Plus;
    var bits: nat := 0;
    PlusNothing(PermissionBits(z, 1));
    for i := 1 to 10
      invariant PermissionBits(z, 1) == Plus(bits, PermissionBits(z, i))
    {
      PermissionStep(z, i, bits);
      if z[i] == Letter(i) {
        bits := bits + Bit(i);
      } else if z[i] != MINUS {
        return None;
      }
    }
    PermissionEnd(z, bits);
    r := Some(bits);
  }

  lemma PermissionStep(z: seq<byte>, i: nat, bits: nat)
    requires |z| == 10 && 1 <= i < 10
    ensures Plus(bits, PermissionBits(z, i))
         == if z[i] == Letter(i) then Plus(bits + Bit(i), PermissionBits(z, i + 1))
            else if z[i] == MINUS then Plus(bits, PermissionBits(z, i + 1))
            else None
  {
    hide Bit, Letter;
  }

  lemma PermissionEnd(z: seq<byte>, bits: nat)
    requires |z| == 10
    ensures Plus(bits, PermissionBits(z, 10)) == Some(bits)
  {
  }

  lemma PlusNothing(bits: Option<nat>)
    ensures Plus(0, bits) == bits
  {
  }

  /** Ten places: a letter for the type and, in turn, r, w and x or a minus. */
  predicate IsModeText(z: seq<byte>) {
    && |z| == 10 && z[0] in {45, 100, 108}
    && z[1] in {45, 114} && z[2] in {45, 119} && z[3] in {45, 120}
    && z[4] in {45, 114} && z[5] in {45, 119} && z[6] in {45, 120}
    && z[7] in {45, 114} && z[8] in {45, 119} && z[9] in {45, 120}
  }

  function Weight(c: byte, n: nat): nat {
    if c == 45 then 0 else n
  }

  /** The mode that is spelled: the type and the permissions from 0400 down to 0001. */
  function SpelledMode(z: seq<byte>): nat
    requires IsModeText(z)
  {
    (if z[0] == 100 then 0x4000 else if z[0] == 108 then 0xa000 else 0x8000)
    + Weight(z[1], 256) + Weight(z[2], 128) + Weight(z[3], 64) + Weight(z[4], 32) + Weight(z[5], 16) + Weight(z[6], 8)
    + Weight(z[7], 4) + Weight(z[8], 2) + Weight(z[9], 1)
  }

  /** A mode that is given as text is read just when it is such a text, as what it spells. */
  lemma ParsedExactly(z: seq<byte>)
    ensures ParsedMode(z) == if IsModeText(z) then Some(SpelledMode(z)) else None
  {
    if |z| == 10 {
      hide PermissionBits, PlacesFit, PlacesValue, Weight;
      PlacesRead(z, 1);
      PlacesMean(z);
      PlacesSum(z);
    }
  }

  /** The places from i on hold their letter or a minus. */
  predicate PlacesFit(z: seq<byte>, i: nat)
    requires |z| == 10 && 1 <= i <= 10
    decreases 10 - i
  {
    i < 10 ==> z[i] in {45, Letter(i)} && PlacesFit(z, i + 1)
  }

  function PlacesValue(z: seq<byte>, i: nat): nat
    requires |z| == 10 && 1 <= i <= 10
    decreases 10 - i
  {
    if i == 10 then 0 else Weight(z[i], Bit(i)) + PlacesValue(z, i + 1)
  }

  lemma {:induction false} PlacesRead(z: seq<byte>, i: nat)
    requires |z| == 10 && 1 <= i <= 10
    ensures PermissionBits(z, i) == if PlacesFit(z, i) then Some(PlacesValue(z, i)) else None
    decreases 10 - i
  {
    hide Bit, Letter;
    if i == 10 {
    } else {
      PlacesRead(z, i + 1);
      LetterIsNoMinus(i);
    }
  }

  lemma PlacesMean(z: seq<byte>)
    requires |z| == 10
    ensures PlacesFit(z, 1) <==>
            && z[1] in {45, 114} && z[2] in {45, 119} && z[3] in {45, 120}
            && z[4] in {45, 114} && z[5] in {45, 119} && z[6] in {45, 120}
            && z[7] in {45, 114} && z[8] in {45, 119} && z[9] in {45, 120}
  {
    assert PlacesFit(z, 7) <==> z[7] in {45, 114} && z[8] in {45, 119} && z[9] in {45, 120};
    assert PlacesFit(z, 4) <==> z[4] in {45, 114} && z[5] in {45, 119} && z[6] in {45, 120} && PlacesFit(z, 7);
  }

  lemma PlacesSum(z: seq<byte>)
    requires |z| == 10
    ensures PlacesValue(z, 1)
         == Weight(z[1], 256) + Weight(z[2], 128) + Weight(z[3], 64) + Weight(z[4], 32) + Weight(z[5], 16) + Weight(z[6], 8)
          + Weight(z[7], 4) + Weight(z[8], 2) + Weight(z[9], 1)
  {
    hide Weight;
    assert PlacesValue(z, 7) == Weight(z[7], 4) + Weight(z[8], 2) + Weight(z[9], 1);
    assert PlacesValue(z, 4) == Weight(z[4], 32) + Weight(z[5], 16) + Weight(z[6], 8) + PlacesValue(z, 7);
  }

  /** Reading what lsmode prints gives the type and the nine permissions; it is refused for any other type of file. */
  lemma LsModeParsed(mode: u32)
    ensures ParsedMode(LsMode(mode))
         == if FileType(mode) in {4, 8, 0xa} then Some(FileType(mode) * 0x1000 + mode % 0x200) else None
  {
    hide PermissionBits, LsMode;
    PermissionsRead(mode, 1);
  }

  /** The permissions from place i on, of a mode. */
  function Lower(mode: u32, i: nat): nat
    requires 1 <= i <= 10
  {
    if i == 10 then 0 else mode % (2 * Bit(i))
  }

  lemma LowerStep(mode: u32, i: nat)
    requires 1 <= i < 10
    ensures Lower(mode, i) == (if mode / Bit(i) % 2 == 1 then Bit(i) else 0) + Lower(mode, i + 1)
  {
    BitSplit(mode, Bit(i));
    assert i < 9 ==> 2 * Bit(i + 1) == Bit(i);
    assert i == 9 ==> Bit(i) == 1;
    hide Bit;
  }

  lemma {:induction false} PermissionsRead(mode: u32, i: nat)
    requires 1 <= i <= 10
    ensures PermissionBits(LsMode(mode), i) == Some(Lower(mode, i))
    decreases 10 - i
  {
    hide LsMode, Lower, Bit, Letter;
    if i == 10 {
      NothingLower(mode);
    } else {
      PermissionsRead(mode, i + 1);
      LowerStep(mode, i);
      LetterIsNoMinus(i);
      assert LsMode(mode)[i] == Permission(mode, i);
    }
  }

  lemma NothingLower(mode: u32)
    ensures Lower(mode, 10) == 0
  {
  }

  lemma LetterIsNoMinus(i: nat)
    ensures Letter(i) != MINUS
  {
  }

  lemma BitSplit(mode: u32, p: nat)
    requires p > 0
    ensures mode % (2 * p) == mode / p % 2 * p + mode % p
  {
    var q, r := mode / p, mode % p;
    Division(mode, p);
    assert q == q / 2 * 2 + q % 2;
    assert mode == q / 2 * (2 * p) + (q % 2 * p + r);
    RemainderUnique(mode, q / 2, 2 * p, q % 2 * p + r);
  }
}
