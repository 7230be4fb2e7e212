/**
 * The append VFS: a database that lives behind a prefix in the same file, found again through
 * a mark at the end of the file.
 */
module AppendVfs {
  import opened Bytes
  import opened BigEndians

  type File = seq<byte>

  /** "Start-Of-SQLite3-" */
  const APND_MARK_PREFIX: File := [83, 116, 97, 114, 116, 45, 79, 102, 45, 83, 81, 76, 105, 116, 101, 51, 45]
  const APND_MARK_PREFIX_SZ := 17
  const APND_MARK_SIZE := 25
  const APND_MAX_SIZE := 65536 * 15259

  /** "SQLite format 3" and its terminator. */
  const SQLITE_HDR: File := [83, 81, 76, 105, 116, 101, 32, 102, 111, 114, 109, 97, 116, 32, 51, 0]

  /** A file offset, a 64-bit signed integer that is not negative. */
  type offset = n: int | 0 <= n < 0x8000_0000_0000_0000

  // ----- the file below

  function Max(a: int, b: int): int {
    if a > b then a else b
  }

  /** xRead of the file below: zeros stand for what is behind the end. */
  function ReadAt(d: File, at: nat, n: nat): (r: File)
    ensures |r| == n
    ensures forall i :: 0 <= i < n ==> r[i] == if at + i < |d| then d[at + i] else 0
  {
    seq(n, i requires 0 <= i => if at + i < |d| then d[at + i] else 0)
  }

  /** xWrite of the file below: a write behind the end leaves a hole. */
  function WriteAt(d: File, at: nat, buf: File): (r: File)
    ensures |r| == Max(|d|, at + |buf|)
    ensures forall i :: 0 <= i < |r| ==> r[i] == if at <= i < at + |buf| then buf[i - at] else if i < |d| then d[i] else 0
  {
    seq(Max(|d|, at + |buf|), i requires 0 <= i => if at <= i < at + |buf| then buf[i - at] else if i < |d| then d[i] else 0)
  }

  /** xTruncate of the file below. */
  function TruncateTo(d: File, n: nat): (r: File)
    ensures |r| == n
    ensures forall i :: 0 <= i < n ==> r[i] == if i < |d| then d[i] else 0
  {
    seq(n, i requires 0 <= i => if i < |d| then d[i] else 0)
  }

  // ----- the mark

  function Mark(iPgOne: offset): (m: File)
    ensures |m| == APND_MARK_SIZE
  {
    APND_MARK_PREFIX + BigEndian(iPgOne, 8)
  }

  function MarkValue(a: File): nat
    requires |a| == APND_MARK_SIZE
  {
    FromBigEndian([a[APND_MARK_PREFIX_SZ] % 128] + a[APND_MARK_PREFIX_SZ + 1..])
  }

  /** The file ends with a mark that says iPgOne. */
  predicate EndsWithMark(d: File, iPgOne: int) {
    |d| >= APND_MARK_SIZE
    && var a := d[|d| - APND_MARK_SIZE..];
       a[..APND_MARK_PREFIX_SZ] == APND_MARK_PREFIX && MarkValue(a) == iPgOne
  }

  lemma MarkRoundTrip(iPgOne: offset)
    ensures MarkValue(Mark(iPgOne)) == iPgOne
    ensures Mark(iPgOne)[..APND_MARK_PREFIX_SZ] == APND_MARK_PREFIX
  {
    PowerOf8();
    BigEndianRoundTrip(iPgOne, 8);
    BigEndianHead(iPgOne, 8);
    var b := BigEndian(iPgOne, 8);
    assert Mark(iPgOne)[APND_MARK_PREFIX_SZ + 1..] == b[1..];
    assert [b[0] % 128] + b[1..] == b;
  }

  lemma PowerOf8()
    ensures 128 * Pow256(7) == 0x8000_0000_0000_0000 && Pow256(8) == 2 * 0x8000_0000_0000_0000
  {
    assert Pow256(4) == 0x1_0000_0000;
    assert Pow256(6) == 0x1_0000_0000_0000;
  }

  /** apndReadMark: the start of the database, or -1 where there is no mark. */
  function MarkOf(d: File): int {
    if |d| > APND_MARK_SIZE && d[|d| - APND_MARK_SIZE..][..APND_MARK_PREFIX_SZ] == APND_MARK_PREFIX
    then MarkValue(d[|d| - APND_MARK_SIZE..])
    else -1
  }

  predicate IsOrdinary(d: File) {
    |d| >= 512 && d[..16] == SQLITE_HDR
  }

  function RoundUp(sz: nat): (r: nat)
    ensures r % 4096 == 0 && sz <= r < sz + 4096
  {
    (sz + 0xfff) / 4096 * 4096
  }

  datatype Opened = Ordinary | CantOpen | Appended(iPgOne: offset)

  function Opens(d: File, create: bool): Opened
    requires |d| + 0xfff < 0x8000_0000_0000_0000
  {
    if IsOrdinary(d) then Ordinary
    else if MarkOf(d) > 0 then MarkBound(d); Appended(MarkOf(d))
    else if create then Appended(RoundUp(|d|))
    else CantOpen
  }

  lemma {:induction false} FromBigEndianBound(b: File)
    requires b != [] && b[0] < 128
    ensures FromBigEndian(b) < 128 * Pow256(|b| - 1)
  {
    if |b| == 1 {
      assert b[..0] == [];
    } else {
      FromBigEndianBound(b[..|b| - 1]);
    }
  }

  lemma MarkBound(d: File)
    ensures MarkOf(d) < 0x8000_0000_0000_0000
  {
    if |d| > APND_MARK_SIZE {
      var a := d[|d| - APND_MARK_SIZE..];
      PowerOf8();
      FromBigEndianBound([a[APND_MARK_PREFIX_SZ] % 128] + a[APND_MARK_PREFIX_SZ + 1..]);
    }
  }

  // ----- the mark and the opening, byte for byte

  /** Eight bytes as a number, the first byte highest. */
  function Number(b: File): nat
    requires |b| == 8
  {
    b[0] as int * 0x100_0000_0000_0000 + b[1] as int * 0x1_0000_0000_0000 + b[2] as int * 0x100_0000_0000
    + b[3] as int * 0x1_0000_0000 + b[4] as int * 0x100_0000 + b[5] as int * 0x1_0000 + b[6] as int * 0x100 + b[7] as int
  }

  lemma FromBigEndianNothing()
    ensures FromBigEndian([]) == 0
  {
  }

  lemma FromBigEndianMore(b: File, c: byte)
    ensures FromBigEndian(b + [c]) == 256 * FromBigEndian(b) + c as int
  {
    assert (b + [c])[..|b|] == b;
  }

  lemma NumberOfBytes(b: File)
    requires |b| == 8
    ensures FromBigEndian(b) == Number(b)
  {
    hide FromBigEndian;
    assert b[..0] == [];
    FromBigEndianNothing();
    forall i | 0 <= i < 8
      ensures FromBigEndian(b[..i + 1]) == 256 * FromBigEndian(b[..i]) + b[i] as int
    {
      FromBigEndianMore(b[..i], b[i]);
      assert b[..i] + [b[i]] == b[..i + 1];
    }
    assert b[..8] == b;
  }

  /** The bytes of every mark: the text "Start-Of-SQLite3-" and the eight bytes of the offset. */
  lemma MarkLayout(b: File)
    requires |b| == 8 && b[0] < 128
    ensures Number(b) < 0x8000_0000_0000_0000
    ensures Mark(Number(b)) == [83, 116, 97, 114, 116, 45, 79, 102, 45, 83, 81, 76, 105, 116, 101, 51, 45] + b
  {
    NumberOfBytes(b);
    PowerOf8();
    FromBigEndianBound(b);
    BytesRoundTrip(b);
  }

  /** At least 512 bytes that start with "SQLite format 3" and its terminator. */
  predicate HasHeader(d: File) {
    |d| >= 512 && d[..16] == [83, 81, 76, 105, 116, 101, 32, 102, 111, 114, 109, 97, 116, 32, 51, 0]
  }

  /** Something, and behind it "Start-Of-SQLite3-" and the bytes b to the end of the file. */
  predicate EndsWithText(d: File, b: File) {
    |d| > 25 && |b| == 8
    && d[|d| - 25..] == [83, 116, 97, 114, 116, 45, 79, 102, 45, 83, 81, 76, 105, 116, 101, 51, 45] + b
  }

  /** The offset in the eight bytes; the highest bit is not part of it. */
  function OffsetIn(b: File): nat
    requires |b| == 8
  {
    Number(b) % 0x8000_0000_0000_0000
  }

  /** A database file is opened as it is; a file with a mark at the place that the mark says. */
  lemma OpensWhereMarked(d: File, b: File, create: bool)
    requires |d| + 0xfff < 0x8000_0000_0000_0000
    ensures Opens(d, create) == Ordinary <==> HasHeader(d)
    ensures !HasHeader(d) && EndsWithText(d, b) && OffsetIn(b) > 0 ==> Opens(d, create) == Appended(OffsetIn(b))
  {
    if EndsWithText(d, b) {
      MarkOfText(d, b);
    }
  }

  /** Any other file is opened only to create a database, behind the next multiple of 4096. */
  lemma OpensUnmarked(d: File, create: bool)
    requires |d| + 0xfff < 0x8000_0000_0000_0000
    requires !HasHeader(d) && forall b :: EndsWithText(d, b) ==> OffsetIn(b) == 0
    ensures !create ==> Opens(d, create) == CantOpen
    ensures create ==> Opens(d, create).Appended? && Opens(d, create).iPgOne % 4096 == 0
                       && |d| <= Opens(d, create).iPgOne < |d| + 4096
  {
    if MarkOf(d) > 0 {
      var a := d[|d| - APND_MARK_SIZE..];
      assert a == a[..17] + a[17..];
      MarkOfText(d, a[17..]);
    }
  }

  /** Without its highest bit. */
  lemma LowBits(b: File)
    requires |b| == 8
    ensures OffsetIn(b) == Number([b[0] % 128] + b[1..])
  {
    var low := [b[0] % 128] + b[1..];
    assert forall i :: 0 < i < 8 ==> low[i] == b[i];
    assert Number(b) == Number(low) + b[0] as int / 128 * 0x8000_0000_0000_0000;
  }

  lemma MarkOfText(d: File, b: File)
    requires EndsWithText(d, b)
    ensures MarkOf(d) == OffsetIn(b)
  {
    hide FromBigEndian, Number;
    var a := d[|d| - 25..];
    assert a[..17] == APND_MARK_PREFIX && a[17] == b[0] && a[18..] == b[1..];
    var low := [b[0] % 128] + b[1..];
    NumberOfBytes(low);
    LowBits(b);
  }

  // ----- an open handle

  datatype Handle = Handle(data: File, iPgOne: offset, iMark: nat)

  datatype Op = Write(zBuf: File, iOfst: nat) | Truncate(size: nat)

  predicate Refused(op: Op) {
    op.Write? && op.iOfst + |op.zBuf| >= APND_MAX_SIZE
  }

  /** The effect of apndWrite and apndTruncate. */
  function Step(s: Handle, op: Op): Handle {
    match op
    case Truncate(size) =>
      var d := TruncateTo(s.data, size + s.iPgOne + APND_MARK_SIZE);
      Handle(WriteAt(d, s.iPgOne + size, Mark(s.iPgOne)), s.iPgOne, s.iPgOne + size)
    case Write(zBuf, iOfst) =>
      if Refused(op) then s else
      var d := WriteAt(s.data, iOfst + s.iPgOne, zBuf);
      var end := iOfst + |zBuf| + s.iPgOne;
      if end <= s.iMark then s.(data := d)
      else if end <= |d| - APND_MARK_SIZE then Handle(d, s.iPgOne, |d| - APND_MARK_SIZE)
      else Handle(WriteAt(d, end, Mark(s.iPgOne)), s.iPgOne, end)
  }

  function Run(s: Handle, ops: seq<Op>): Handle {
    if ops == [] then s else Step(Run(s, ops[..|ops| - 1]), ops[|ops| - 1])
  }

  function FileSize(s: Handle): int {
    if s.iPgOne != 0 then |s.data| - (s.iPgOne + APND_MARK_SIZE) else |s.data|
  }

  class SubFile {
    var data: File

    method XRead(iAmt: nat, iOfst: nat) returns (a: File)
      ensures a == ReadAt(data, iOfst, iAmt)
    {
      a := ReadAt(data, iOfst, iAmt);
    }

    method XWrite(zBuf: File, iOfst: nat)
      modifies this
      ensures data == WriteAt(old(data), iOfst, zBuf)
    {
      data := WriteAt(data, iOfst, zBuf);
    }

    method XTruncate(size: nat)
      modifies this
      ensures data == TruncateTo(old(data), size)
    {
      data := TruncateTo(data, size);
    }

    method XFileSize() returns (sz: nat)
      ensures sz == |data|
    {
      sz := |data|;
    }
  }

  datatype Code = SQLITE_OK | SQLITE_FULL | SQLITE_CANTOPEN

  class ApndFile {
    const pFile: SubFile
    var iPgOne: offset
    var iMark: int

    ghost predicate Valid()
      reads this
    {
      iMark >= 0
    }

    ghost function State(): Handle
      reads this, pFile
      requires Valid()
    {
      Handle(pFile.data, iPgOne, iMark)
    }

    constructor (pFile: SubFile)
      ensures this.pFile == pFile && iPgOne == 0 && iMark == 0
    {
      this.pFile, iPgOne, iMark := pFile, 0, 0;
    }

    method ApndRead(iAmt: nat, iOfst: nat) returns (zBuf: File)
      ensures zBuf == ReadAt(pFile.data, iPgOne + iOfst, iAmt)
    {
      zBuf := pFile.XRead(iAmt, iOfst + iPgOne);
    }

    method ApndWriteMark()
      requires Valid()
      modifies pFile
      ensures pFile.data == WriteAt(old(pFile.data), iMark, Mark(iPgOne))
    {
      var a := new byte[APND_MARK_SIZE];
      var i := 0;
      while i < APND_MARK_PREFIX_SZ
        modifies a
        invariant 0 <= i <= APND_MARK_PREFIX_SZ && a[..i] == APND_MARK_PREFIX[..i]
      {
        a[i] := APND_MARK_PREFIX[i];
        i := i + 1;
      }
      FillIn(a);
      pFile.XWrite(a[..], iMark);
    }

    /** The eight bytes of iPgOne. */
    method FillIn(a: array<byte>)
      requires a.Length == APND_MARK_SIZE && a[..APND_MARK_PREFIX_SZ] == APND_MARK_PREFIX
      modifies a
      ensures a[..] == Mark(iPgOne)
    {
      ghost var b: File := [];
      assert Shifted(iPgOne, 0) == iPgOne;
      hide BigEndian, ByteOf, Shifted;
      var i := 0;
      while i < 8
        invariant 0 <= i <= 8 && |b| == i
        invariant a[..APND_MARK_PREFIX_SZ] == APND_MARK_PREFIX
        invariant forall k :: 0 <= k < i ==> a[APND_MARK_PREFIX_SZ + k] == b[k]
        invariant b == BigEndian(Shifted(iPgOne, 8 - i), i)
      {
        BigEndianMore(iPgOne, 7 - i, i);
        a[APND_MARK_PREFIX_SZ + i] := ByteOf(iPgOne, 7 - i);
        b := b + [ByteOf(iPgOne, 7 - i)];
        i := i + 1;
      }
      assert a[APND_MARK_PREFIX_SZ..] == b;
      assert a[..] == a[..APND_MARK_PREFIX_SZ] + a[APND_MARK_PREFIX_SZ..];
    }

    method ApndWrite(zBuf: File, iOfst: nat) returns (rc: Code)
      requires Valid() && zBuf != []
      modifies this`iMark, pFile
      ensures Valid() && State() == Step(old(State()), Write(zBuf, iOfst))
      ensures rc == if iOfst + |zBuf| >= APND_MAX_SIZE then SQLITE_FULL else SQLITE_OK
    {
      hide WriteAt, Mark;
      if iOfst + |zBuf| >= APND_MAX_SIZE {
        return SQLITE_FULL;
      }
      pFile.XWrite(zBuf, iOfst + iPgOne);
      if iOfst + |zBuf| + iPgOne > iMark {
        var sz := pFile.XFileSize();
        iMark := sz - APND_MARK_SIZE;
        if iOfst + |zBuf| + iPgOne > iMark {
          iMark := iPgOne + iOfst + |zBuf|;
          ApndWriteMark();
        }
      }
      rc := SQLITE_OK;
    }

    method ApndTruncate(size: nat)
      requires Valid()
      modifies this`iMark, pFile
      ensures Valid() && State() == Step(old(State()), Truncate(size))
    {
      pFile.XTruncate(size + iPgOne + APND_MARK_SIZE);
      iMark := iPgOne + size;
      ApndWriteMark();
    }

    method ApndFileSize() returns (size: int)
      requires Valid()
      ensures size == FileSize(State())
    {
      size := pFile.XFileSize();
      if iPgOne != 0 {
        size := size - (iPgOne + APND_MARK_SIZE);
      }
    }

    method ApndIsOrdinaryDatabaseFile(sz: nat) returns (ordinary: bool)
      requires sz == |pFile.data|
      ensures ordinary == IsOrdinary(pFile.data)
    {
      if sz < 512 {
        return false;
      }
      var zHdr := pFile.XRead(16, 0);
      assert zHdr == pFile.data[..16];
      ordinary := zHdr == SQLITE_HDR;
    }

    /** Called while iPgOne is still 0, so that apndRead reads the file itself. */
    method ApndReadMark(sz: nat) returns (iMark: int)
      requires sz == |pFile.data| && iPgOne == 0
      ensures iMark == MarkOf(pFile.data)
    {
      if sz <= APND_MARK_SIZE {
        return -1;
      }
      var a := ApndRead(APND_MARK_SIZE, sz - APND_MARK_SIZE);
      assert a == pFile.data[sz - APND_MARK_SIZE..];
      if a[..APND_MARK_PREFIX_SZ] != APND_MARK_PREFIX {
        return -1;
      }
      ghost var m := [a[APND_MARK_PREFIX_SZ] % 128] + a[APND_MARK_PREFIX_SZ + 1..];
      iMark := a[APND_MARK_PREFIX_SZ] % 128 * 0x100_0000_0000_0000;
      var i := 1;
      FirstDigit(m);
      while i < 8
        invariant 1 <= i <= 8
        invariant iMark == FromBigEndian(m[..i]) * Pow256(8 - i)
      {
        NextDigit(m, i);
        iMark := iMark + a[APND_MARK_PREFIX_SZ + i] * Pow256(7 - i);
        i := i + 1;
      }
      assert m[..8] == m;
    }

    method ApndOpen(create: bool) returns (r: Opened)
      requires iPgOne == 0 && iMark == 0 && |pFile.data| + 0xfff < 0x8000_0000_0000_0000
      modifies this
      ensures r == Opens(pFile.data, create)
      ensures r.Appended? ==> Valid() && State() == Handle(pFile.data, r.iPgOne, 0)
    {
      var sz := pFile.XFileSize();
      var ordinary := ApndIsOrdinaryDatabaseFile(sz);
      if ordinary {
        return Ordinary;
      }
      iMark := 0;
      var mark := ApndReadMark(sz);
      if mark > 0 {
        MarkBound(pFile.data);
        iPgOne := mark;
        return Appended(iPgOne);
      }
      r := CantOpen;
      iPgOne := (sz + 0xfff) / 4096 * 4096;
      if create {
        r := Appended(iPgOne);
      }
    }
  }

  lemma FirstDigit(m: File)
    requires |m| == 8
    ensures m[0] as int * 0x100_0000_0000_0000 == FromBigEndian(m[..1]) * Pow256(7)
  {
    PowerOf8();
    assert m[..1][..0] == [];
  }

  lemma NextDigit(m: File, i: nat)
    requires 1 <= i < 8 == |m|
    ensures FromBigEndian(m[..i]) * Pow256(8 - i) + m[i] * Pow256(7 - i) == FromBigEndian(m[..i + 1]) * Pow256(7 - i)
  {
    assert m[..i + 1][..i] == m[..i];
    var x, p := FromBigEndian(m[..i]), Pow256(7 - i);
    assert (256 * x + m[i]) * p == x * (256 * p) + m[i] * p;
  }

  // ----- the database file that the handle stands for

  /** Its size, the bytes in it that are known, and whether the handle has changed it. */
  datatype View = View(size: nat, bytes: map<nat, byte>, touched: bool)

  predicate Within(o: nat, at: nat, n: nat) {
    at <= o < at + n
  }

  function BytesAt(b: File, at: nat): (m: map<nat, byte>)
    ensures forall o :: o in m <==> Within(o, at, |b|)
    ensures forall o :: o in m ==> at <= o < at + |b| && m[o] == b[o - at]
  {
    map o: nat | at <= o < at + |b| && Within(o, at, |b|) :: b[o - at]
  }

  /** What is behind the prefix of a file that is opened with iPgOne. */
  function InitialView(orig: File, iPgOne: nat): View {
    if MarkOf(orig) == iPgOne > 0 && |orig| - APND_MARK_SIZE >= iPgOne
    then View(|orig| - APND_MARK_SIZE - iPgOne, BytesAt(orig[iPgOne..|orig| - APND_MARK_SIZE], 0), false)
    else View(0, map[], false)
  }

  function Apply(v: View, op: Op): View {
    if Refused(op) then v else
    match op
    case Write(zBuf, iOfst) =>
      View(Max(v.size, iOfst + |zBuf|), v.bytes + BytesAt(zBuf, iOfst), true)
    case Truncate(size) =>
      View(size, map o | o in v.bytes && o < size :: v.bytes[o], true)
  }

  function ApplyAll(v: View, ops: seq<Op>): View {
    if ops == [] then v else Apply(ApplyAll(v, ops[..|ops| - 1]), ops[|ops| - 1])
  }

  // ----- what every step keeps

  predicate PrefixKept(orig: File, s: Handle) {
    forall i :: 0 <= i < |orig| && i < s.iPgOne ==> i < |s.data| && s.data[i] == orig[i]
  }

  predicate TrailerKept(orig: File, s: Handle, v: View) {
    if v.touched
    then EndsWithMark(s.data, s.iPgOne) && s.iMark == |s.data| - APND_MARK_SIZE == s.iPgOne + v.size
    else s.data == orig && s.iMark == 0 && v == InitialView(orig, s.iPgOne)
  }

  predicate StoredAt(s: Handle, v: View, o: nat)
    requires o in v.bytes
  {
    o < v.size && s.iPgOne + o < |s.data| && s.data[s.iPgOne + o] == v.bytes[o]
  }

  predicate Stored(s: Handle, v: View) {
    forall o :: o in v.bytes ==> StoredAt(s, v, o)
  }

  predicate Refines(orig: File, s: Handle, v: View) {
    PrefixKept(orig, s) && TrailerKept(orig, s, v) && Stored(s, v)
  }

  predicate OpenedAt(orig: File, iPgOne: nat) {
    if MarkOf(orig) > 0 then iPgOne == MarkOf(orig) else iPgOne == RoundUp(|orig|)
  }

  predicate HasData(op: Op) {
    op.Write? ==> op.zBuf != []
  }

  lemma FreshMark(d: File, at: nat, iPgOne: offset)
    requires |d| <= at + APND_MARK_SIZE
    ensures EndsWithMark(WriteAt(d, at, Mark(iPgOne)), iPgOne)
    ensures |WriteAt(d, at, Mark(iPgOne))| == at + APND_MARK_SIZE
  {
    MarkRoundTrip(iPgOne);
    assert WriteAt(d, at, Mark(iPgOne))[at..] == Mark(iPgOne);
  }

  lemma OldMark(d: File, at: nat, buf: File, iPgOne: int)
    requires EndsWithMark(d, iPgOne) && at + |buf| <= |d| - APND_MARK_SIZE
    ensures EndsWithMark(WriteAt(d, at, buf), iPgOne)
    ensures |WriteAt(d, at, buf)| == |d|
  {
    assert WriteAt(d, at, buf)[|d| - APND_MARK_SIZE..] == d[|d| - APND_MARK_SIZE..];
  }

  lemma WriteKeepsTrailer(orig: File, s: Handle, v: View, op: Op)
    requires op.Write? && HasData(op) && !Refused(op) && OpenedAt(orig, s.iPgOne)
    requires Refines(orig, s, v)
    ensures TrailerKept(orig, Step(s, op), Apply(v, op))
  {
    hide EndsWithMark, WriteAt, Mark, MarkValue;
    var d := WriteAt(s.data, op.iOfst + s.iPgOne, op.zBuf);
    var end := op.iOfst + |op.zBuf| + s.iPgOne;
    if v.touched && end <= s.iMark {
      OldMark(s.data, op.iOfst + s.iPgOne, op.zBuf, s.iPgOne);
    } else if end <= |d| - APND_MARK_SIZE {
      if !v.touched {
        MarkOfEnds(orig);
      }
      OldMark(s.data, op.iOfst + s.iPgOne, op.zBuf, s.iPgOne);
    } else {
      FreshMark(d, end, s.iPgOne);
    }
  }

  lemma MarkOfEnds(d: File)
    requires MarkOf(d) >= 0
    ensures EndsWithMark(d, MarkOf(d))
  {
  }

  lemma TruncateKeepsTrailer(orig: File, s: Handle, v: View, op: Op)
    requires op.Truncate?
    ensures TrailerKept(orig, Step(s, op), Apply(v, op))
  {
    hide EndsWithMark, WriteAt, Mark;
    FreshMark(TruncateTo(s.data, op.size + s.iPgOne + APND_MARK_SIZE), s.iPgOne + op.size, s.iPgOne);
  }

  lemma StepKeepsPrefix(orig: File, s: Handle, op: Op)
    requires PrefixKept(orig, s)
    ensures PrefixKept(orig, Step(s, op))
  {
    hide Mark;
  }

  /** A step changes only what the view says, as far as the view reaches. */
  lemma StepBytes(s: Handle, op: Op, o: nat)
    requires !Refused(op)
    requires op.Truncate? ==> o < op.size
    requires op.Write? ==> Within(o, op.iOfst, |op.zBuf|) || s.iPgOne + o < |s.data| - APND_MARK_SIZE
    requires s.iPgOne + o < |Step(s, op).data| - APND_MARK_SIZE
    ensures Step(s, op).data[s.iPgOne + o]
         == if op.Write? && Within(o, op.iOfst, |op.zBuf|) then op.zBuf[o - op.iOfst]
            else if s.iPgOne + o < |s.data| then s.data[s.iPgOne + o] else 0
  {
    hide Mark;
  }

  lemma StepStores(orig: File, s: Handle, v: View, op: Op)
    requires !Refused(op)
    requires TrailerKept(orig, s, v) && TrailerKept(orig, Step(s, op), Apply(v, op)) && Stored(s, v)
    ensures Stored(Step(s, op), Apply(v, op))
  {
    forall o | o in Apply(v, op).bytes
      ensures StoredAt(Step(s, op), Apply(v, op), o)
    {
      hide Step, Apply, Stored, TrailerKept, StoredAt;
      StepStoresAt(orig, s, v, op, o);
    }
    hide Step, Apply, TrailerKept;
  }

  lemma StepStoresAt(orig: File, s: Handle, v: View, op: Op, o: nat)
    requires !Refused(op) && o in Apply(v, op).bytes
    requires TrailerKept(orig, s, v) && TrailerKept(orig, Step(s, op), Apply(v, op)) && Stored(s, v)
    ensures StoredAt(Step(s, op), Apply(v, op), o)
  {
    hide Step, Apply, TrailerKept, Stored;
    StepSize(orig, s, v, op);
    ApplyBytes(v, op, o);
    if !(op.Write? && Within(o, op.iOfst, |op.zBuf|)) {
      BytesBeforeMark(orig, s, v, o);
    }
    StepBytes(s, op, o);
  }

  lemma ApplyBytes(v: View, op: Op, o: nat)
    requires !Refused(op) && o in Apply(v, op).bytes
    ensures var w := Apply(v, op);
            if op.Write? && Within(o, op.iOfst, |op.zBuf|)
            then op.iOfst <= o < op.iOfst + |op.zBuf| && w.bytes[o] == op.zBuf[o - op.iOfst] && o < w.size
            else o in v.bytes && w.bytes[o] == v.bytes[o] && (op.Truncate? ==> o < op.size) && (o < v.size ==> o < w.size)
  {
  }

  lemma StepSize(orig: File, s: Handle, v: View, op: Op)
    requires !Refused(op) && TrailerKept(orig, Step(s, op), Apply(v, op))
    ensures Step(s, op).iPgOne == s.iPgOne
    ensures |Step(s, op).data| == s.iPgOne + Apply(v, op).size + APND_MARK_SIZE
  {
    hide EndsWithMark, WriteAt, TruncateTo, Mark;
  }

  lemma BytesBeforeMark(orig: File, s: Handle, v: View, o: nat)
    requires TrailerKept(orig, s, v) && Stored(s, v) && o in v.bytes
    ensures s.iPgOne + o < |s.data| - APND_MARK_SIZE && StoredAt(s, v, o)
  {
    hide EndsWithMark, MarkOf;
  }

  lemma StepRefines(orig: File, s: Handle, v: View, op: Op)
    requires HasData(op) && OpenedAt(orig, s.iPgOne)
    requires Refines(orig, s, v)
    ensures Refines(orig, Step(s, op), Apply(v, op)) && Step(s, op).iPgOne == s.iPgOne
  {
    hide TrailerKept, PrefixKept, Stored;
    StepKeepsPrefix(orig, s, op);
    if !Refused(op) {
      if op.Write? {
        WriteKeepsTrailer(orig, s, v, op);
      } else {
        TruncateKeepsTrailer(orig, s, v, op);
      }
      StepStores(orig, s, v, op);
    }
  }

  predicate RunOf(orig: File, create: bool, ops: seq<Op>) {
    && |orig| + 0xfff < 0x8000_0000_0000_0000 && Opens(orig, create).Appended?
    && forall i :: 0 <= i < |ops| ==> HasData(ops[i])
  }

  /** The handle after opening the file and a run of operations. */
  function After(orig: File, create: bool, ops: seq<Op>): Handle
    requires RunOf(orig, create, ops)
  {
    Run(Handle(orig, Opens(orig, create).iPgOne, 0), ops)
  }

  function ViewAfter(orig: File, create: bool, ops: seq<Op>): View
    requires RunOf(orig, create, ops)
  {
    ApplyAll(InitialView(orig, Opens(orig, create).iPgOne), ops)
  }

  /** Every run of writes and truncations is one of the database file alone, moved behind the prefix. */
  lemma {:induction false} RunRefines(orig: File, create: bool, ops: seq<Op>)
    requires RunOf(orig, create, ops)
    ensures var s := After(orig, create, ops);
            s.iPgOne == Opens(orig, create).iPgOne && Refines(orig, s, ViewAfter(orig, create, ops))
  {
    if ops == [] {
    } else {
      var ops', op := ops[..|ops| - 1], ops[|ops| - 1];
      RunRefines(orig, create, ops');
      hide Refines, Step, Apply;
      StepRefines(orig, After(orig, create, ops'), ViewAfter(orig, create, ops'), op);
    }
  }

  /** The bytes of the prefix never change, and after the first change the file ends with the mark. */
  lemma PrefixAndMark(orig: File, create: bool, ops: seq<Op>)
    requires RunOf(orig, create, ops)
    ensures var s := After(orig, create, ops);
            && (forall i :: 0 <= i < |orig| && i < s.iPgOne ==> i < |s.data| && s.data[i] == orig[i])
            && (if exists i :: 0 <= i < |ops| && !Refused(ops[i])
                then EndsWithMark(s.data, s.iPgOne) && s.iMark == |s.data| - APND_MARK_SIZE
                else s.data == orig && s.iMark == 0)
  {
    hide Run, EndsWithMark, ApplyAll;
    RunRefines(orig, create, ops);
    Touched(orig, create, ops);
  }

  lemma {:induction false} Touched(orig: File, create: bool, ops: seq<Op>)
    requires RunOf(orig, create, ops)
    ensures ViewAfter(orig, create, ops).touched <==> exists i :: 0 <= i < |ops| && !Refused(ops[i])
  {
    if ops == [] {
    } else {
      var ops' := ops[..|ops| - 1];
      Touched(orig, create, ops');
      assert forall i :: 0 <= i < |ops'| ==> ops'[i] == ops[i];
      hide InitialView, RunOf, Opens;
    }
  }

  /** Bytes that were written and not cut off read back as last written. */
  lemma ReadsBack(orig: File, create: bool, ops: seq<Op>, iOfst: nat, n: nat)
    requires RunOf(orig, create, ops)
    requires forall o :: iOfst <= o < iOfst + n ==> o in ViewAfter(orig, create, ops).bytes
    ensures var s := After(orig, create, ops);
            var a := ReadAt(s.data, s.iPgOne + iOfst, n);
            forall o :: iOfst <= o < iOfst + n ==> a[o - iOfst] == ViewAfter(orig, create, ops).bytes[o]
  {
    RunRefines(orig, create, ops);
    hide After, ViewAfter, TrailerKept, PrefixKept, RunOf;
  }

  /**
   * The size that is reported is right unless the file is new and not written to yet, its mark
   * points behind itself, or there is no prefix.
   */
  lemma FileSizeExactly(orig: File, create: bool, ops: seq<Op>)
    requires RunOf(orig, create, ops)
    ensures var s, touched := After(orig, create, ops), exists i :: 0 <= i < |ops| && !Refused(ops[i]);
            FileSize(s) == ViewAfter(orig, create, ops).size <==>
            if s.iPgOne > 0 then touched || |orig| - APND_MARK_SIZE >= s.iPgOne else !touched
  {
    RunRefines(orig, create, ops);
    Touched(orig, create, ops);
    hide After, ViewAfter, EndsWithMark, PrefixKept, Stored;
  }

  /** With nothing in front of the database, the mark is counted. */
  lemma FileSizeWithoutPrefix(b: byte)
    ensures RunOf([], true, [Write([b], 0)]) && FileSize(After([], true, [Write([b], 0)])) == 26
  {
    hide Step, Mark, MarkValue, Run;
    OneStep([], true, Write([b], 0));
    RunRefines([], true, [Write([b], 0)]);
  }

  /** A file that is new to the VFS and has not been written to reports a negative size. */
  lemma FileSizeOfNewFile(b: byte)
    ensures RunOf([b], true, []) && FileSize(After([b], true, [])) == -4120
  {
  }

  /** A mark that points behind itself does so as well. */
  lemma FileSizeOfFarMark(b: byte)
    ensures RunOf([b] + Mark(100), false, []) && FileSize(After([b] + Mark(100), false, [])) == -99
  {
    MarkRoundTrip(100);
    assert ([b] + Mark(100))[1..] == Mark(100);
    hide Mark, MarkValue;
  }

  /**
   * A changed file is opened again at the same place unless it looks like an ordinary database
   * or has no prefix.
   */
  lemma Reopens(orig: File, create: bool, ops: seq<Op>, again: bool)
    requires RunOf(orig, create, ops) && exists i :: 0 <= i < |ops| && !Refused(ops[i])
    requires |After(orig, create, ops).data| + 0xfff < 0x8000_0000_0000_0000
    ensures var s := After(orig, create, ops);
            Opens(s.data, again) == Appended(s.iPgOne) <==> s.iPgOne > 0 && !IsOrdinary(s.data)
  {
    RunRefines(orig, create, ops);
    Touched(orig, create, ops);
    hide After, ViewAfter, MarkValue, IsOrdinary, PrefixKept, Stored, InitialView;
  }

  /** Sixteen bytes that are the SQLite header are no database yet; appended to, they look like one. */
  lemma ReopensAsOrdinary(b: byte, again: bool)
    ensures RunOf(SQLITE_HDR, true, [Write([b], 0)])
    ensures var d := After(SQLITE_HDR, true, [Write([b], 0)]).data;
            |d| == 4122 && Opens(d, again) == Ordinary
  {
    hide Step, Mark;
    OneStep(SQLITE_HDR, true, Write([b], 0));
    RunRefines(SQLITE_HDR, true, [Write([b], 0)]);
    OrdinaryByPrefix(SQLITE_HDR, true, [Write([b], 0)]);
  }

  /** Without a prefix, the database is looked for behind itself. */
  lemma ReopensElsewhere(b: byte)
    ensures RunOf([], true, [Write([b], 0)])
    ensures var d := After([], true, [Write([b], 0)]).data;
            |d| == 26 && Opens(d, true) == Appended(4096)
  {
    OneStep([], true, Write([b], 0));
    hide Run, Step, MarkValue, Mark;
    PrefixAndMark([], true, [Write([b], 0)]);
    RunRefines([], true, [Write([b], 0)]);
    assert !Refused([Write([b], 0)][0]);
  }

  /** The handle that opens a changed file again stands for the same database. */
  lemma ReopenedView(orig: File, create: bool, ops: seq<Op>)
    requires RunOf(orig, create, ops) && exists i :: 0 <= i < |ops| && !Refused(ops[i])
    requires After(orig, create, ops).iPgOne > 0
    ensures var s, v := After(orig, create, ops), ViewAfter(orig, create, ops);
            var w := InitialView(s.data, s.iPgOne);
            w.size == v.size && forall o :: o in v.bytes ==> o in w.bytes && w.bytes[o] == v.bytes[o]
  {
    hide After, ViewAfter, InitialView, Refines, RunOf;
    RunRefines(orig, create, ops);
    Touched(orig, create, ops);
    var s, v := After(orig, create, ops), ViewAfter(orig, create, ops);
    TouchedView(orig, s, v);
    forall o | o in v.bytes
      ensures o in InitialView(s.data, s.iPgOne).bytes && InitialView(s.data, s.iPgOne).bytes[o] == v.bytes[o]
    {
      TouchedByte(orig, s, v, o);
    }
  }

  /** A changed file read anew: the bytes between the place of the database and the mark. */
  lemma TouchedView(orig: File, s: Handle, v: View)
    requires Refines(orig, s, v) && v.touched && s.iPgOne > 0
    ensures |s.data| == s.iPgOne + v.size + APND_MARK_SIZE
    ensures InitialView(s.data, s.iPgOne) == View(v.size, BytesAt(s.data[s.iPgOne..s.iPgOne + v.size], 0), false)
  {
    hide MarkValue, PrefixKept, Stored, BytesAt;
  }

  lemma TouchedByte(orig: File, s: Handle, v: View, o: nat)
    requires Refines(orig, s, v) && v.touched && s.iPgOne > 0 && o in v.bytes
    ensures var w := InitialView(s.data, s.iPgOne);
            o in w.bytes && w.bytes[o] == v.bytes[o]
  {
    hide InitialView, PrefixKept, TrailerKept;
    TouchedView(orig, s, v);
    assert StoredAt(s, v, o);
    assert Within(o, 0, v.size);
  }

  /** Behind a prefix of 16 bytes or more, what the file looks like is decided by the prefix and the new size. */
  lemma OrdinaryByPrefix(orig: File, create: bool, ops: seq<Op>)
    requires RunOf(orig, create, ops) && exists i :: 0 <= i < |ops| && !Refused(ops[i])
    requires |orig| >= 16 && After(orig, create, ops).iPgOne >= 16
    ensures var s := After(orig, create, ops);
            IsOrdinary(s.data) <==> orig[..16] == SQLITE_HDR && |s.data| >= 512
  {
    RunRefines(orig, create, ops);
    hide After, ViewAfter, MarkValue;
    assert After(orig, create, ops).data[..16] == orig[..16];
  }

  // ----- the limit on the size of the whole file

  /** After a change, the whole file is what stands in front, the database and the mark. */
  lemma WholeSize(orig: File, create: bool, ops: seq<Op>)
    requires RunOf(orig, create, ops) && exists i :: 0 <= i < |ops| && !Refused(ops[i])
    ensures var s, v := After(orig, create, ops), ViewAfter(orig, create, ops);
            |s.data| == s.iPgOne + v.size + APND_MARK_SIZE
  {
    RunRefines(orig, create, ops);
    Touched(orig, create, ops);
    hide After, ViewAfter, EndsWithMark, PrefixKept, Stored;
  }

  /** The database ends here after an accepted operation, when its size was size. */
  function NewEnd(size: nat, op: Op): nat {
    match op
    case Write(zBuf, iOfst) => Max(size, iOfst + |zBuf|)
    case Truncate(n) => n
  }

  /**
   * An accepted operation leaves the file within APND_MAX_SIZE, the limit for prefix, database and
   * mark together, just when the new end of the database leaves room for the prefix and the mark.
   */
  lemma NextWithinLimit(orig: File, create: bool, ops: seq<Op>, op: Op)
    requires RunOf(orig, create, ops) && HasData(op) && !Refused(op)
    ensures RunOf(orig, create, ops + [op])
    ensures |After(orig, create, ops + [op]).data| <= APND_MAX_SIZE <==>
            Opens(orig, create).iPgOne + NewEnd(ViewAfter(orig, create, ops).size, op) + APND_MARK_SIZE <= APND_MAX_SIZE
  {
    var more := ops + [op];
    assert more[..|ops|] == ops && more[|ops|] == op;
    RunRefines(orig, create, more);
    WholeSize(orig, create, more);
    hide After, EndsWithMark, Refines, InitialView;
  }

  /** The only check is that a write ends before APND_MAX_SIZE; it leaves out the mark. */
  lemma CheckMissesMark(zBuf: File)
    requires |zBuf| == APND_MAX_SIZE - 1
    ensures RunOf([], true, [Write(zBuf, 0)]) && !Refused(Write(zBuf, 0))
    ensures |After([], true, [Write(zBuf, 0)]).data| == APND_MAX_SIZE + 24
  {
    OneStep([], true, Write(zBuf, 0));
  }

  /** A truncation that makes the file longer is not checked at all. */
  lemma CheckMissesTruncation()
    ensures RunOf([], true, [Truncate(APND_MAX_SIZE)])
    ensures |After([], true, [Truncate(APND_MAX_SIZE)]).data| == APND_MAX_SIZE + 25
  {
    OneStep([], true, Truncate(APND_MAX_SIZE));
  }

  /** One byte behind a prefix of APND_MAX_SIZE zeros. */
  lemma CheckMissesPrefix(orig: File, b: byte)
    requires |orig| == APND_MAX_SIZE && forall i :: 0 <= i < |orig| ==> orig[i] == 0
    ensures RunOf(orig, true, [Write([b], 0)])
    ensures |After(orig, true, [Write([b], 0)]).data| == APND_MAX_SIZE + 26
  {
    hide Mark, MarkValue, Run, Step;
    NothingKnown(orig);
    OneStep(orig, true, Write([b], 0));
  }

  lemma NothingKnown(d: File)
    requires |d| >= 512 && d[0] != SQLITE_HDR[0] && d[|d| - APND_MARK_SIZE] != APND_MARK_PREFIX[0]
    ensures MarkOf(d) == -1 && !IsOrdinary(d)
  {
    hide MarkValue;
    assert d[..16][0] == d[0];
    assert d[|d| - APND_MARK_SIZE..][..APND_MARK_PREFIX_SZ][0] == d[|d| - APND_MARK_SIZE];
  }

  lemma OneStep(orig: File, create: bool, op: Op)
    requires RunOf(orig, create, [op]) && !Refused(op)
    ensures var iPgOne := Opens(orig, create).iPgOne;
            |After(orig, create, [op]).data| == iPgOne + NewEnd(InitialView(orig, iPgOne).size, op) + APND_MARK_SIZE
  {
    hide InitialView, Run, Opens;
    assert [op][..0] == [];
    var v := InitialView(orig, Opens(orig, create).iPgOne);
    assert ApplyAll(v, []) == v;
    assert ApplyAll(v, [op]) == Apply(v, op);
    RunRefines(orig, create, [op]);
    WholeSize(orig, create, [op]);
  }
}
