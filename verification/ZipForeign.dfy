/**
 * Loading archives of any origin: other lengths in the local header than in the directory, other
 * extra fields, comments, and anything around the parts.
 */
module ZipForeign {
  import opened Bytes
  import opened DosTime
  import opened Options
  import Texts
  import opened ZipArchive
  import opened ZipRecords

  // ----- extra fields

  datatype Field = Field(id: u16, data: seq<byte>)

  function FieldBytes(f: Field): seq<byte>
    requires |f.data| < 0x1_0000
  {
    [f.id % 256, f.id / 256, |f.data| % 256, |f.data| / 256] + f.data
  }

  /** The size fits, and a time stamp with the flag of the modification time has this time. */
  predicate SoundField(f: Field) {
    |f.data| < 0x1_0000 && (f.id == 0x5455 ==> f.data != [] && (f.data[0] % 2 == 1 ==> |f.data| >= 5))
  }

  predicate Sound(fs: seq<Field>) {
    forall i :: 0 <= i < |fs| ==> SoundField(fs[i])
  }

  function FieldsBytes(fs: seq<Field>): seq<byte>
    requires Sound(fs)
  {
    if fs == [] then [] else FieldBytes(fs[0]) + FieldsBytes(fs[1..])
  }

  predicate HasTime(f: Field) {
    f.id == 0x5455 && |f.data| >= 5 && f.data[0] % 2 == 1
  }

  function TimeOf(f: Field): u32
    requires HasTime(f)
  {
    f.data[1] as int + 0x100 * f.data[2] as int + 0x1_0000 * f.data[3] as int + 0x100_0000 * f.data[4] as int
  }

  /** The time of the last field that has one. */
  function LastTime(fs: seq<Field>): Option<u32> {
    if fs == [] then None else
    var n := |fs| - 1;
    if HasTime(fs[n]) then Some(TimeOf(fs[n])) else LastTime(fs[..n])
  }

  lemma {:induction false} LastTimeMeans(fs: seq<Field>)
    ensures LastTime(fs).None? <==> forall i :: 0 <= i < |fs| ==> !HasTime(fs[i])
    ensures LastTime(fs).Some? ==> exists i :: 0 <= i < |fs| && IsLast(fs, i) && LastTime(fs).value == TimeOf(fs[i])
  {
    hide HasTime, TimeOf;
    if fs == [] {
    } else {
      var n := |fs| - 1;
      LastTimeMeans(fs[..n]);
      if HasTime(fs[n]) {
        assert IsLast(fs, n);
      } else if LastTime(fs[..n]).Some? {
        var i :| 0 <= i < n && IsLast(fs[..n], i) && LastTime(fs[..n]).value == TimeOf(fs[..n][i]);
        assert fs[..n][i] == fs[i] && forall k :: i < k < n ==> fs[..n][k] == fs[k];
        assert IsLast(fs, i);
      } else {
        forall i | 0 <= i < |fs|
          ensures !HasTime(fs[i])
        {
          assert i < n ==> fs[..n][i] == fs[i];
        }
      }
    }
  }

  predicate IsLast(fs: seq<Field>, i: nat)
    requires i < |fs|
  {
    HasTime(fs[i]) && forall k :: i < k < |fs| ==> !HasTime(fs[k])
  }

  lemma {:induction false} LastTimeFront(fs: seq<Field>)
    requires fs != []
    ensures LastTime(fs) == if LastTime(fs[1..]).Some? then LastTime(fs[1..])
                            else if HasTime(fs[0]) then Some(TimeOf(fs[0])) else None
    decreases |fs|
  {
    var n := |fs| - 1;
    if n == 0 {
      assert fs[..0] == [] && fs[1..] == [];
    } else {
      LastTimeFront(fs[..n]);
      assert fs[..n][1..] == fs[1..][..n - 1] && fs[1..][n - 1] == fs[n];
    }
  }

  /** Scanning extra fields finds the last time, whatever other fields there are. */
  lemma {:induction false} ScanFields(fs: seq<Field>)
    requires Sound(fs)
    ensures ScanExtra(FieldsBytes(fs)) == LastTime(fs)
    decreases |fs|
  {
    if fs == [] {
    } else {
      var f, rest := fs[0], FieldsBytes(fs[1..]);
      LastTimeFront(fs);
      ScanFields(fs[1..]);
      hide FieldsBytes, LastTime;
      ScanOne(f, rest);
    }
  }

  lemma FieldHead(f: Field, rest: seq<byte>)
    requires |f.data| < 0x1_0000
    ensures var p := FieldBytes(f) + rest;
            |p| >= 4 && Get16(p) == f.id && Get16(p[2..]) == |f.data| && p[4..] == f.data + rest
  {
    var p := FieldBytes(f) + rest;
    assert p[..4] == [f.id % 256, f.id / 256, |f.data| % 256, |f.data| / 256];
    assert p[0] == p[..4][0] && p[1] == p[..4][1] && p[2..][0] == p[..4][2] && p[2..][1] == p[..4][3];
    assert p[4..] == f.data + rest;
  }

  lemma FieldTime(f: Field, rest: seq<byte>)
    requires |f.data| > 0
    ensures (f.data + rest)[0] == f.data[0] && (f.data + rest)[|f.data|..] == rest
    ensures HasTime(f) ==> Get32((f.data + rest)[1..]) == TimeOf(f)
  {
    if HasTime(f) {
      var d := (f.data + rest)[1..];
      assert d[0] == f.data[1] && d[1] == f.data[2] && d[2] == f.data[3] && d[3] == f.data[4];
    }
  }

  lemma ScanOne(f: Field, rest: seq<byte>)
    requires SoundField(f)
    ensures ScanExtra(FieldBytes(f) + rest)
         == if ScanExtra(rest).Some? then ScanExtra(rest) else if HasTime(f) then Some(TimeOf(f)) else None
  {
    hide FieldBytes, Get16, Get32, TimeOf;
    FieldHead(f, rest);
    if f.data == [] {
      assert f.data + rest == rest && rest[0..] == rest;
    } else {
      FieldTime(f, rest);
    }
  }

  // ----- entries

  /** An entry: its directory record with name, extra fields and comment, its local header with what follows, and its data. */
  datatype Foreign = Foreign(
    c: CDS, name: seq<byte>, fields: seq<Field>, comment: seq<byte>,
    local: CDS, localName: seq<byte>, localExtra: seq<byte>, data: seq<byte>)

  /** The lengths in the two headers are those of their own parts. */
  predicate Fitting(f: Foreign) {
    && Sound(f.fields) && 0 !in f.name
    && f.c.nFile == |f.name| && f.c.nExtra == |FieldsBytes(f.fields)| && f.c.nComment == |f.comment|
    && f.local.nFile == |f.localName| && f.local.nExtra == |f.localExtra| && f.c.szCompressed == |f.data|
  }

  function RecordBytes(f: Foreign): seq<byte>
    requires Fitting(f)
  {
    CDSBytes(f.c, f.name + FieldsBytes(f.fields) + f.comment)
  }

  function LocalBytes(f: Foreign): seq<byte> {
    LFHBytes(f.local, f.localName + f.localExtra + f.data)
  }

  /** The parts of the entry lie in the archive: the record at iOff, the local part where the record says. */
  predicate LiesIn(f: Foreign, b: seq<byte>, iOff: nat)
    requires Fitting(f)
  {
    iOff <= |b| && RecordBytes(f) <= b[iOff..] && f.c.iOffset <= |b| && LocalBytes(f) <= b[f.c.iOffset..]
  }

  /** What should be loaded. */
  predicate LoadedAs(e: Entry, f: Foreign)
    requires Fitting(f)
  {
    && e.cds == f.c.(zFile := f.name) && e.aExtra == FieldsBytes(f.fields) + f.comment && e.aData == f.data
    && e.iDataOff == f.c.iOffset + 30 + |f.localName| + |f.localExtra|
    && e.mUnixTime == match LastTime(f.fields) case Some(t) => t case None => Mtime(f.c.stamp)
  }

  lemma RecordRead(b: seq<byte>, iOff: nat, f: Foreign)
    requires Fitting(f) && iOff <= |b| && RecordBytes(f) <= b[iOff..]
    ensures iOff + CDS_FIXED_SZ <= |b| && ReadCDS(b[iOff..]) == Some(f.c.(zFile := []))
    ensures var aRead := b[iOff..][CDS_FIXED_SZ..];
            && |aRead| >= f.c.nFile + f.c.nExtra + f.c.nComment && aRead[..f.c.nFile] == f.name
            && aRead[f.c.nFile..][..f.c.nExtra] == FieldsBytes(f.fields)
            && aRead[f.c.nFile..][..f.c.nExtra + f.c.nComment] == FieldsBytes(f.fields) + f.comment
  {
    hide ReadCDS, CDSBytes, FieldsBytes, Sound;
    var x := FieldsBytes(f.fields);
    var all := f.name + x + f.comment;
    var rest := b[iOff..][|RecordBytes(f)|..];
    CDSRoundTrip(f.c, all + rest);
    CDSPrefix(f.c, all, rest);
    assert b[iOff..] == CDSBytes(f.c, all) + rest;
    assert b[iOff..][CDS_FIXED_SZ..] == all + rest;
    assert (all + rest)[f.c.nFile..] == x + f.comment + rest;
    assert (x + f.comment + rest)[..f.c.nExtra] == x && (x + f.comment + rest)[..f.c.nExtra + f.c.nComment] == x + f.comment;
  }

  lemma HeaderRead(b: seq<byte>, f: Foreign)
    requires Fitting(f) && f.c.iOffset <= |b| && LocalBytes(f) <= b[f.c.iOffset..]
    ensures f.c.iOffset + LFH_FIXED_SZ <= |b| && ReadLFH(b[f.c.iOffset..]).Some?
    ensures var lfh := ReadLFH(b[f.c.iOffset..]).value;
            lfh.nFile == |f.localName| && lfh.nExtra == |f.localExtra|
    ensures var d := f.c.iOffset + LFH_FIXED_SZ + (|f.localName| + |f.localExtra|);
            d + |f.data| <= |b| && b[d..][..|f.data|] == f.data
  {
    hide ReadLFH, LFHBytes, FieldsBytes, Sound;
    var head, s := f.localName + f.localExtra, b[f.c.iOffset..];
    var rest := s[|LocalBytes(f)|..];
    LFHRoundTrip(f.local, head + f.data + rest);
    LFHPrefix(f.local, head + f.data, rest);
    assert s == LFHBytes(f.local, head + f.data) + rest;
    var d := f.c.iOffset + LFH_FIXED_SZ + |head|;
    Texts.Assoc(head, f.data, rest);
    assert b[d..] == s[LFH_FIXED_SZ..][|head|..] == f.data + rest;
  }

  /** An entry is loaded with its own name, extra fields, comment, time and data. */
  lemma EntryOfAnyOrigin(b: seq<byte>, iOff: nat, f: Foreign)
    requires Fitting(f) && LiesIn(f, b, iOff)
    ensures GetEntry(b, iOff).Ok? && LoadedAs(GetEntry(b, iOff).value, f)
    ensures Following(iOff, GetEntry(b, iOff).value) == Behind(iOff, f)
  {
    hide ReadCDS, ReadLFH, CDSBytes, LFHBytes, ScanExtra, UpToNul, FieldsBytes, Sound, LastTime;
    RecordRead(b, iOff, f);
    HeaderRead(b, f);
    UpToNulWhole(f.name);
    ScanFields(f.fields);
  }

  // ----- whole archives

  /** Where the record behind the one of f starts. */
  function Behind(iOff: nat, f: Foreign): nat
    requires Fitting(f)
  {
    iOff + 46 + |f.name| + |FieldsBytes(f.fields)| + |f.comment|
  }

  /** The records lie one behind the other. */
  predicate Chained(b: seq<byte>, iOff: nat, fs: seq<Foreign>)
    decreases |fs|
  {
    fs != [] ==>
      && Fitting(fs[0]) && LiesIn(fs[0], b, iOff)
      && Chained(b, Behind(iOff, fs[0]), fs[1..])
  }

  predicate AllLoadedAs(es: seq<Entry>, fs: seq<Foreign>) {
    |es| == |fs| && forall i :: 0 <= i < |fs| ==> Fitting(fs[i]) && LoadedAs(es[i], fs[i])
  }

  lemma {:induction false} EntriesOfAnyOrigin(b: seq<byte>, iOff: nat, fs: seq<Foreign>)
    requires Chained(b, iOff, fs)
    ensures EntriesFrom(b, iOff, |fs|).Ok? && AllLoadedAs(EntriesFrom(b, iOff, |fs|).value, fs)
    decreases |fs|
  {
    hide GetEntry, LiesIn, Fitting, LoadedAs, FieldsBytes, Following, Behind;
    if fs == [] {
    } else {
      EntryOfAnyOrigin(b, iOff, fs[0]);
      var next := Behind(iOff, fs[0]);
      EntriesOfAnyOrigin(b, next, fs[1..]);
      AllMore(GetEntry(b, iOff).value, EntriesFrom(b, next, |fs| - 1).value, fs);
    }
  }

  lemma AllMore(e: Entry, es: seq<Entry>, fs: seq<Foreign>)
    requires fs != [] && Fitting(fs[0]) && LoadedAs(e, fs[0]) && AllLoadedAs(es, fs[1..])
    ensures AllLoadedAs([e] + es, fs)
  {
    hide Fitting, LoadedAs;
    forall i | 0 <= i < |fs|
      ensures Fitting(fs[i]) && LoadedAs(([e] + es)[i], fs[i])
    {
      if i > 0 {
        assert ([e] + es)[i] == es[i - 1] && fs[i] == fs[1..][i - 1];
      }
    }
  }

  /** A place in the last 64 KiB with room for the fields of an end record. */
  predicate InWindow(b: seq<byte>, k: nat) {
    |b| - 0x1_0000 <= k <= |b| - 20
  }

  ghost predicate NoEnd(b: seq<byte>) {
    forall k: nat :: InWindow(b, k) ==> !IsEndMark(b, k)
  }

  /** The last place of the signature. */
  ghost predicate LastEnd(b: seq<byte>, k: nat) {
    InWindow(b, k) && IsEndMark(b, k) && forall j: nat :: k < j && InWindow(b, j) ==> !IsEndMark(b, j)
  }

  /** The end record is the one at the last signature in the window; there is none without one. */
  lemma EndRecordExactly(b: seq<byte>)
    ensures FindEOCD(b).None? <==> NoEnd(b)
    ensures FindEOCD(b).Some? ==> exists k: nat :: LastEnd(b, k) && EndFields(b, k, FindEOCD(b).value)
  {
    hide LastMark, ReadEOCDFields, IsEndMark, NoEnd, EndFields;
    var nRead := if |b| < BUFFER_SIZE then |b| else BUFFER_SIZE;
    var off := |b| - nRead;
    var i := LastMark(b[off..], nRead - 20);
    EndPlace(b, off, i);
    if i >= 0 {
      var k := off + i;
      assert b[off..][i + 4..] == b[k + 4..];
      FieldsAt(b, k);
      assert LastEnd(b, k) && EndFields(b, k, FindEOCD(b).value);
      NotBoth(b, k);
    }
  }

  lemma NotBoth(b: seq<byte>, k: nat)
    requires LastEnd(b, k)
    ensures !NoEnd(b)
  {
  }

  lemma EndPlace(b: seq<byte>, off: nat, i: int)
    requires off == (if |b| < BUFFER_SIZE then 0 else |b| - BUFFER_SIZE)
    requires -1 <= i <= |b| - off - 20 || i == -1
    requires i >= 0 ==> IsEndMark(b[off..], i)
    requires forall j: nat :: i < j <= |b| - off - 20 ==> !IsEndMark(b[off..], j)
    ensures if i < 0 then NoEnd(b) else LastEnd(b, off + i)
  {
    hide IsEndMark;
    forall j: nat | InWindow(b, j) && j - off >= i
      ensures IsEndMark(b, j) <==> IsEndMark(b[off..], j - off)
    {
      MarkShifted(b, off, j - off);
    }
    if i >= 0 {
      MarkShifted(b, off, i);
    }
  }

  lemma MarkShifted(b: seq<byte>, off: nat, j: nat)
    requires off <= |b| && j + 4 <= |b| - off
    ensures IsEndMark(b[off..], j) <==> IsEndMark(b, off + j)
  {
    var s := b[off..];
    assert s[j] == b[off + j] && s[j + 1] == b[off + j + 1] && s[j + 2] == b[off + j + 2] && s[j + 3] == b[off + j + 3];
  }

  /** The fields behind the signature. */
  predicate EndFields(b: seq<byte>, k: nat, p: EOCD)
    requires k + 20 <= |b|
  {
    && Word(b, k + 4, p.iDisk) && Word(b, k + 6, p.iFirstDisk) && Word(b, k + 8, p.nEntry)
    && Word(b, k + 10, p.nEntryTotal) && Long(b, k + 12, p.nSize) && Long(b, k + 16, p.iOffset)
  }

  lemma WordRead(b: seq<byte>, i: nat)
    requires i + 2 <= |b|
    ensures Word(b, i, Get16(b[i..]))
  {
  }

  lemma FourBytes(b0: byte, b1: byte, b2: byte, b3: byte)
    ensures var v := b3 as int * 0x100_0000 + b2 as int * 0x1_0000 + b1 as int * 256 + b0;
            v % 256 == b0 && v / 256 % 256 == b1 && v / 0x1_0000 % 256 == b2 && v / 0x100_0000 == b3
  {
    TwoFields(b0, b1 + 256 * (b2 + 256 * b3 as int), 256);
    TwoFields(b1, b2 + 256 * b3 as int, 256);
    TwoFields(b2, b3, 256);
  }

  lemma LongRead(b: seq<byte>, i: nat)
    requires i + 4 <= |b|
    ensures Long(b, i, Get32(b[i..]))
  {
    FourBytes(b[i], b[i + 1], b[i + 2], b[i + 3]);
    Get32At(b, i);
    hide Get32;
  }

  lemma Get32At(b: seq<byte>, i: nat)
    requires i + 4 <= |b|
    ensures Get32(b[i..]) == b[i + 3] as int * 0x100_0000 + b[i + 2] as int * 0x1_0000 + b[i + 1] as int * 256 + b[i]
  {
  }

  lemma FieldsAt(b: seq<byte>, k: nat)
    requires k + 20 <= |b|
    ensures EndFields(b, k, ReadEOCDFields(b[k + 4..]))
  {
    hide Word, Long, Get16, Get32;
    var a0 := b[k + 4..];
    WordRead(b, k + 4);
    WordRead(b, k + 6);
    WordRead(b, k + 8);
    WordRead(b, k + 10);
    LongRead(b, k + 12);
    LongRead(b, k + 16);
    assert a0[2..] == b[k + 6..] && b[k + 6..][2..] == b[k + 8..] && b[k + 8..][2..] == b[k + 10..];
    assert b[k + 10..][2..] == b[k + 12..] && b[k + 12..][4..] == b[k + 16..];
  }

  /** An archive whose end record names the chain of its entries is loaded as these entries, in order. */
  lemma ArchiveOfAnyOrigin(b: seq<byte>, fs: seq<Foreign>)
    requires FindEOCD(b).Some? && FindEOCD(b).value.nEntry == |fs| && Chained(b, FindEOCD(b).value.iOffset, fs)
    ensures Loaded(b).Ok? && AllLoadedAs(Loaded(b).value, fs)
  {
    hide FindEOCD, EntriesFrom, Chained;
    EntriesOfAnyOrigin(b, FindEOCD(b).value.iOffset, fs);
  }

  lemma Signature(b: seq<byte>, v: u32)
    requires |b| >= 4
    ensures Get32(b) == v <==> b[..4] == [v % 256, v / 256 % 256, v / 0x1_0000 % 256, v / 0x100_0000]
  {
    FourDigits(v);
    FourBytes(b[0], b[1], b[2], b[3]);
    assert b[..4] == [b[0], b[1], b[2], b[3]];
  }

  lemma SignatureRead(b: seq<byte>)
    ensures |b| >= 46 ==> (ReadCDS(b).None? <==> b[..4] != [0x50, 0x4b, 1, 2])
    ensures |b| >= 30 ==> (ReadLFH(b).None? <==> b[..4] != [0x50, 0x4b, 3, 4])
  {
    hide Get32, Get16;
    if |b| >= 4 {
      Signature(b, SIGNATURE_CDS);
      Signature(b, SIGNATURE_LFH);
    }
  }

  /** A record without its signature is refused. */
  lemma WrongRecord(b: seq<byte>, iOff: nat)
    requires iOff + 46 <= |b|
    ensures GetEntry(b, iOff) == BadCDS <==> b[iOff..][..4] != [0x50, 0x4b, 1, 2]
  {
    hide ReadCDS, ReadLFH, ScanExtra, UpToNul;
    SignatureRead(b[iOff..]);
  }

  /** A record whose local header is without its signature is refused as well. */
  lemma WrongLocal(b: seq<byte>, iOff: nat, f: Foreign)
    requires Fitting(f) && iOff <= |b| && RecordBytes(f) <= b[iOff..] && f.c.iOffset + 30 <= |b|
    ensures GetEntry(b, iOff) == BadLFH <==> b[f.c.iOffset..][..4] != [0x50, 0x4b, 3, 4]
  {
    hide ReadCDS, ReadLFH, CDSBytes, ScanExtra, UpToNul, FieldsBytes, Sound;
    RecordRead(b, iOff, f);
    SignatureRead(b[f.c.iOffset..]);
  }
}
