/** The three record types of a ZIP archive: how the shell writes them and reads them back. */
module ZipRecords {
  import opened Bytes
  import opened Options
  import opened DosTime

  const SIGNATURE_CDS: u32 := 0x02014b50
  const SIGNATURE_LFH: u32 := 0x04034b50
  const SIGNATURE_EOCD: u32 := 0x06054b50
  const EXTRA_TIMESTAMP: u16 := 0x5455
  const LFH_FIXED_SZ := 30
  const EOCD_FIXED_SZ := 22
  const CDS_FIXED_SZ := 46

  /** End of central directory record (APPNOTE section 4.3.16). */
  datatype EOCD = EOCD(iDisk: u16, iFirstDisk: u16, nEntry: u16, nEntryTotal: u16, nSize: u32, iOffset: u32)

  /** Central directory record (section 4.3.12) with its file name. */
  datatype CDS = CDS(iVersionMadeBy: u16, iVersionExtract: u16, flags: u16, iCompression: u16, stamp: Stamp,
                     crc32: u32, szCompressed: u32, szUncompressed: u32, nFile: u16, nExtra: u16, nComment: u16,
                     iDiskStart: u16, iInternalAttr: u16, iExternalAttr: u32, iOffset: u32, zFile: seq<byte>)

  /** Local file header (section 4.3.7). */
  datatype LFH = LFH(iVersionExtract: u16, flags: u16, iCompression: u16, stamp: Stamp,
                     crc32: u32, szCompressed: u32, szUncompressed: u32, nFile: u16, nExtra: u16)

  // ----- little-endian integers

  function Put16(v: u16): (b: seq<byte>)
    ensures |b| == 2
  {
    [v % 256, v / 256]
  }

  function Put32(v: u32): (b: seq<byte>)
    ensures |b| == 4
  {
    [v % 256, v / 256 % 256, v / 0x1_0000 % 256, v / 0x100_0000]
  }

  function Get16(b: seq<byte>): u16
    requires |b| >= 2
  {
    b[1] as int * 256 + b[0]
  }

  function Get32(b: seq<byte>): u32
    requires |b| >= 4
  {
    b[3] as int * 0x100_0000 + b[2] as int * 0x1_0000 + b[1] as int * 256 + b[0]
  }

  lemma Get16Put16(v: u16, rest: seq<byte>)
    ensures Get16(Put16(v) + rest) == v && (Put16(v) + rest)[2..] == rest
  {
  }

  lemma Get32Put32(v: u32, rest: seq<byte>)
    ensures Get32(Put32(v) + rest) == v && (Put32(v) + rest)[4..] == rest
  {
    FourDigits(v);
    assert (Put32(v) + rest)[..4] == Put32(v);
  }

  lemma FourDigits(v: u32)
    ensures v / 0x100_0000 * 0x100_0000 + v / 0x1_0000 % 256 * 0x1_0000 + v / 256 % 256 * 256 + v % 256 == v
  {
    assert v / 0x1_0000 == v / 0x100_0000 * 256 + v / 0x1_0000 % 256;
    assert v / 256 == v / 0x1_0000 * 256 + v / 256 % 256;
  }

  // ----- records as bytes

  /** zipfileSerializeEOCD. */
  function EOCDBytes(p: EOCD): seq<byte> {
    Put32(SIGNATURE_EOCD) + (Put16(p.iDisk) + (Put16(p.iFirstDisk) + (Put16(p.nEntry) + (Put16(p.nEntryTotal)
    + (Put32(p.nSize) + (Put32(p.iOffset) + Put16(0)))))))
  }

  /** The extra field that carries the time: id, size, flag and seconds. */
  function TimeExtra(t: u32): (b: seq<byte>)
    ensures |b| == 9
  {
    Put16(EXTRA_TIMESTAMP) + (Put16(5) + ([1] + Put32(t)))
  }

  /** The fixed part of a local header, then rest. */
  function LFHBytes(c: CDS, rest: seq<byte>): seq<byte> {
    Put32(SIGNATURE_LFH) + (Put16(c.iVersionExtract) + (Put16(c.flags) + (Put16(c.iCompression)
    + (Put16(c.stamp.mTime) + (Put16(c.stamp.mDate) + (Put32(c.crc32) + (Put32(c.szCompressed)
    + (Put32(c.szUncompressed) + (Put16(c.nFile) + (Put16(c.nExtra) + rest))))))))))
  }

  /** The fixed part of a directory record, then rest. */
  function CDSBytes(c: CDS, rest: seq<byte>): seq<byte> {
    Put32(SIGNATURE_CDS) + (Put16(c.iVersionMadeBy) + (Put16(c.iVersionExtract) + (Put16(c.flags)
    + (Put16(c.iCompression) + (Put16(c.stamp.mTime) + (Put16(c.stamp.mDate) + (Put32(c.crc32)
    + (Put32(c.szCompressed) + (Put32(c.szUncompressed) + (Put16(c.nFile) + (Put16(c.nExtra)
    + (Put16(c.nComment) + (Put16(c.iDiskStart) + (Put16(c.iInternalAttr) + (Put32(c.iExternalAttr)
    + (Put32(c.iOffset) + rest))))))))))))))))
  }

  // ----- reading them

  /** zipfileReadLFH; None when the signature is wrong. */
  function ReadLFH(b: seq<byte>): Option<LFH>
    requires |b| >= LFH_FIXED_SZ
  {
    if Get32(b) != SIGNATURE_LFH then None else
    var a0 := b[4..];
    var a1 := a0[2..];
    var a2 := a1[2..];
    var a3 := a2[2..];
    var a4 := a3[2..];
    var a5 := a4[2..];
    var a6 := a5[4..];
    var a7 := a6[4..];
    var a8 := a7[4..];
    var a9 := a8[2..];
    Some(LFH(Get16(a0), Get16(a1), Get16(a2), Stamp(Get16(a3), Get16(a4)), Get32(a5), Get32(a6), Get32(a7),
             Get16(a8), Get16(a9)))
  }

  /** zipfileReadCDS, the file name left empty; None when the signature is wrong. */
  function ReadCDS(b: seq<byte>): Option<CDS>
    requires |b| >= CDS_FIXED_SZ
  {
    if Get32(b) != SIGNATURE_CDS then None else
    var a0 := b[4..];
    var a1 := a0[2..];
    var a2 := a1[2..];
    var a3 := a2[2..];
    var a4 := a3[2..];
    var a5 := a4[2..];
    var a6 := a5[2..];
    var a7 := a6[4..];
    var a8 := a7[4..];
    var a9 := a8[4..];
    var a10 := a9[2..];
    var a11 := a10[2..];
    var a12 := a11[2..];
    var a13 := a12[2..];
    var a14 := a13[2..];
    var a15 := a14[4..];
    Some(CDS(Get16(a0), Get16(a1), Get16(a2), Get16(a3), Stamp(Get16(a4), Get16(a5)), Get32(a6), Get32(a7),
             Get32(a8), Get16(a9), Get16(a10), Get16(a11), Get16(a12), Get16(a13), Get32(a14), Get32(a15), []))
  }

  lemma LFHRoundTrip(c: CDS, rest: seq<byte>)
    ensures |LFHBytes(c, rest)| == LFH_FIXED_SZ + |rest| && LFHBytes(c, rest)[LFH_FIXED_SZ..] == rest
    ensures ReadLFH(LFHBytes(c, rest)) == Some(LFH(c.iVersionExtract, c.flags, c.iCompression, c.stamp, c.crc32,
                                                 c.szCompressed, c.szUncompressed, c.nFile, c.nExtra))
  {
    hide Put16, Put32, Get16, Get32;
    var a9 := Put16(c.nExtra) + rest;
    var a8 := Put16(c.nFile) + a9;
    var a7 := Put32(c.szUncompressed) + a8;
    var a6 := Put32(c.szCompressed) + a7;
    var a5 := Put32(c.crc32) + a6;
    var a4 := Put16(c.stamp.mDate) + a5;
    var a3 := Put16(c.stamp.mTime) + a4;
    var a2 := Put16(c.iCompression) + a3;
    var a1 := Put16(c.flags) + a2;
    var a0 := Put16(c.iVersionExtract) + a1;
    Get32Put32(SIGNATURE_LFH, a0);
    Get16Put16(c.iVersionExtract, a1);
    Get16Put16(c.flags, a2);
    Get16Put16(c.iCompression, a3);
    Get16Put16(c.stamp.mTime, a4);
    Get16Put16(c.stamp.mDate, a5);
    Get32Put32(c.crc32, a6);
    Get32Put32(c.szCompressed, a7);
    Get32Put32(c.szUncompressed, a8);
    Get16Put16(c.nFile, a9);
    Get16Put16(c.nExtra, rest);
  }

  lemma CDSRoundTrip(c: CDS, rest: seq<byte>)
    ensures |CDSBytes(c, rest)| == CDS_FIXED_SZ + |rest| && CDSBytes(c, rest)[CDS_FIXED_SZ..] == rest
    ensures ReadCDS(CDSBytes(c, rest)) == Some(c.(zFile := []))
  {
    hide Put16, Put32, Get16, Get32;
    var a15 := Put32(c.iOffset) + rest;
    var a14 := Put32(c.iExternalAttr) + a15;
    var a13 := Put16(c.iInternalAttr) + a14;
    var a12 := Put16(c.iDiskStart) + a13;
    var a11 := Put16(c.nComment) + a12;
    var a10 := Put16(c.nExtra) + a11;
    var a9 := Put16(c.nFile) + a10;
    var a8 := Put32(c.szUncompressed) + a9;
    var a7 := Put32(c.szCompressed) + a8;
    var a6 := Put32(c.crc32) + a7;
    var a5 := Put16(c.stamp.mDate) + a6;
    var a4 := Put16(c.stamp.mTime) + a5;
    var a3 := Put16(c.iCompression) + a4;
    var a2 := Put16(c.flags) + a3;
    var a1 := Put16(c.iVersionExtract) + a2;
    var a0 := Put16(c.iVersionMadeBy) + a1;
    Get32Put32(SIGNATURE_CDS, a0);
    Get16Put16(c.iVersionMadeBy, a1);
    Get16Put16(c.iVersionExtract, a2);
    Get16Put16(c.flags, a3);
    Get16Put16(c.iCompression, a4);
    Get16Put16(c.stamp.mTime, a5);
    Get16Put16(c.stamp.mDate, a6);
    Get32Put32(c.crc32, a7);
    Get32Put32(c.szCompressed, a8);
    Get32Put32(c.szUncompressed, a9);
    Get16Put16(c.nFile, a10);
    Get16Put16(c.nExtra, a11);
    Get16Put16(c.nComment, a12);
    Get16Put16(c.iDiskStart, a13);
    Get16Put16(c.iInternalAttr, a14);
    Get32Put32(c.iExternalAttr, a15);
    Get32Put32(c.iOffset, rest);
  }

  // ----- the layout by APPNOTE

  /** The two bytes of a number, lowest first, at a place. */
  predicate Word(b: seq<byte>, i: nat, v: u16) {
    i + 2 <= |b| && b[i] == v % 256 && b[i + 1] == v / 256
  }

  predicate Long(b: seq<byte>, i: nat, v: u32) {
    i + 4 <= |b| && b[i] == v % 256 && b[i + 1] == v / 256 % 256 && b[i + 2] == v / 0x1_0000 % 256 && b[i + 3] == v / 0x100_0000
  }

  lemma Placed16(b: seq<byte>, i: nat, v: u16, rest: seq<byte>)
    requires i <= |b| && b[i..] == Put16(v) + rest
    ensures Word(b, i, v) && b[i + 2..] == rest
  {
    assert b[i..][0] == b[i] && b[i..][1] == b[i + 1];
    assert b[i + 2..] == b[i..][2..] == rest;
  }

  lemma Placed32(b: seq<byte>, i: nat, v: u32, rest: seq<byte>)
    requires i <= |b| && b[i..] == Put32(v) + rest
    ensures Long(b, i, v) && b[i + 4..] == rest
  {
    assert b[i..][0] == b[i] && b[i..][1] == b[i + 1] && b[i..][2] == b[i + 2] && b[i..][3] == b[i + 3];
    assert b[i + 4..] == b[i..][4..] == rest;
  }

  /** Section 4.3.7: the places of the fields in a local header. */
  lemma LFHLayout(c: CDS, rest: seq<byte>)
    ensures var b := LFHBytes(c, rest);
            && |b| == 30 + |rest| && b[..4] == [0x50, 0x4b, 3, 4] && b[30..] == rest
            && Word(b, 4, c.iVersionExtract) && Word(b, 6, c.flags) && Word(b, 8, c.iCompression)
            && Word(b, 10, c.stamp.mTime) && Word(b, 12, c.stamp.mDate) && Long(b, 14, c.crc32)
            && Long(b, 18, c.szCompressed) && Long(b, 22, c.szUncompressed) && Word(b, 26, c.nFile) && Word(b, 28, c.nExtra)
  {
    hide Word, Long;
    var b := LFHBytes(c, rest);
    LFHRoundTrip(c, rest);
    assert b[..4] == [0x50, 0x4b, 3, 4];
    hide Put16, Put32;
    var a9 := Put16(c.nExtra) + rest;
    var a8 := Put16(c.nFile) + a9;
    var a7 := Put32(c.szUncompressed) + a8;
    var a6 := Put32(c.szCompressed) + a7;
    var a5 := Put32(c.crc32) + a6;
    var a4 := Put16(c.stamp.mDate) + a5;
    var a3 := Put16(c.stamp.mTime) + a4;
    var a2 := Put16(c.iCompression) + a3;
    var a1 := Put16(c.flags) + a2;
    assert b[4..] == Put16(c.iVersionExtract) + a1;
    Placed16(b, 4, c.iVersionExtract, a1);
    Placed16(b, 6, c.flags, a2);
    Placed16(b, 8, c.iCompression, a3);
    Placed16(b, 10, c.stamp.mTime, a4);
    Placed16(b, 12, c.stamp.mDate, a5);
    Placed32(b, 14, c.crc32, a6);
    Placed32(b, 18, c.szCompressed, a7);
    Placed32(b, 22, c.szUncompressed, a8);
    Placed16(b, 26, c.nFile, a9);
    Placed16(b, 28, c.nExtra, rest);
  }

  /** Section 4.3.12: the places of the fields in a directory record. */
  lemma CDSLayout(c: CDS, rest: seq<byte>)
    ensures var b := CDSBytes(c, rest);
            && |b| == 46 + |rest| && b[..4] == [0x50, 0x4b, 1, 2] && b[46..] == rest
            && Word(b, 4, c.iVersionMadeBy) && Word(b, 6, c.iVersionExtract) && Word(b, 8, c.flags)
            && Word(b, 10, c.iCompression) && Word(b, 12, c.stamp.mTime) && Word(b, 14, c.stamp.mDate)
            && Long(b, 16, c.crc32) && Long(b, 20, c.szCompressed) && Long(b, 24, c.szUncompressed)
            && Word(b, 28, c.nFile) && Word(b, 30, c.nExtra) && Word(b, 32, c.nComment)
            && Word(b, 34, c.iDiskStart) && Word(b, 36, c.iInternalAttr)
            && Long(b, 38, c.iExternalAttr) && Long(b, 42, c.iOffset)
  {
    hide Word, Long, Put16, Put32;
    var b := CDSBytes(c, rest);
    CDSRoundTrip(c, rest);
    Signatures();
    var tail := CDSEnd(c, rest);
    hide CDSEnd;
    var a8 := Put32(c.szUncompressed) + tail;
    var a7 := Put32(c.szCompressed) + a8;
    var a6 := Put32(c.crc32) + a7;
    var a5 := Put16(c.stamp.mDate) + a6;
    var a4 := Put16(c.stamp.mTime) + a5;
    var a3 := Put16(c.iCompression) + a4;
    var a2 := Put16(c.flags) + a3;
    var a1 := Put16(c.iVersionExtract) + a2;
    CDSStart(c, rest, a1);
    hide CDSBytes;
    Placed16(b, 4, c.iVersionMadeBy, a1);
    Placed16(b, 6, c.iVersionExtract, a2);
    Placed16(b, 8, c.flags, a3);
    Placed16(b, 10, c.iCompression, a4);
    Placed16(b, 12, c.stamp.mTime, a5);
    Placed16(b, 14, c.stamp.mDate, a6);
    Placed32(b, 16, c.crc32, a7);
    Placed32(b, 20, c.szCompressed, a8);
    Placed32(b, 24, c.szUncompressed, tail);
    CDSEndLayout(b, c, rest);
  }

  lemma Signatures()
    ensures Put32(SIGNATURE_CDS) == [0x50, 0x4b, 1, 2] && Put32(SIGNATURE_LFH) == [0x50, 0x4b, 3, 4]
    ensures Put32(SIGNATURE_EOCD) == [0x50, 0x4b, 5, 6]
  {
  }

  lemma CDSStart(c: CDS, rest: seq<byte>, a1: seq<byte>)
    requires a1 == Put16(c.iVersionExtract) + (Put16(c.flags) + (Put16(c.iCompression)
                 + (Put16(c.stamp.mTime) + (Put16(c.stamp.mDate) + (Put32(c.crc32) + (Put32(c.szCompressed)
                 + (Put32(c.szUncompressed) + CDSEnd(c, rest))))))))
    ensures var b := CDSBytes(c, rest);
            |b| >= 4 && b[..4] == Put32(SIGNATURE_CDS) && b[4..] == Put16(c.iVersionMadeBy) + a1
  {
    hide Put16, Put32;
  }

  /** A directory record from the length of the name on. */
  function CDSEnd(c: CDS, rest: seq<byte>): seq<byte> {
    Put16(c.nFile) + (Put16(c.nExtra) + (Put16(c.nComment) + (Put16(c.iDiskStart) + (Put16(c.iInternalAttr)
    + (Put32(c.iExternalAttr) + (Put32(c.iOffset) + rest))))))
  }

  lemma CDSEndLayout(b: seq<byte>, c: CDS, rest: seq<byte>)
    requires |b| >= 28 && b[28..] == CDSEnd(c, rest)
    ensures Word(b, 28, c.nFile) && Word(b, 30, c.nExtra) && Word(b, 32, c.nComment)
    ensures Word(b, 34, c.iDiskStart) && Word(b, 36, c.iInternalAttr) && Long(b, 38, c.iExternalAttr) && Long(b, 42, c.iOffset)
  {
    hide Word, Long, Put16, Put32;
    var a15 := Put32(c.iOffset) + rest;
    var a14 := Put32(c.iExternalAttr) + a15;
    var a13 := Put16(c.iInternalAttr) + a14;
    var a12 := Put16(c.iDiskStart) + a13;
    var a11 := Put16(c.nComment) + a12;
    Placed16(b, 28, c.nFile, Put16(c.nExtra) + a11);
    Placed16(b, 30, c.nExtra, a11);
    Placed16(b, 32, c.nComment, a12);
    Placed16(b, 34, c.iDiskStart, a13);
    Placed16(b, 36, c.iInternalAttr, a14);
    Placed32(b, 38, c.iExternalAttr, a15);
    Placed32(b, 42, c.iOffset, rest);
  }

  /** Section 4.3.16: the places of the fields in an end record. */
  lemma EOCDLayout(p: EOCD)
    ensures var b := EOCDBytes(p);
            && |b| == 22 && b[..4] == [0x50, 0x4b, 5, 6] && Word(b, 4, p.iDisk) && Word(b, 6, p.iFirstDisk)
            && Word(b, 8, p.nEntry) && Word(b, 10, p.nEntryTotal) && Long(b, 12, p.nSize) && Long(b, 16, p.iOffset)
            && Word(b, 20, 0)
  {
    hide Word, Long;
    var b := EOCDBytes(p);
    assert b[..4] == [0x50, 0x4b, 5, 6];
    hide Put16, Put32;
    var a6 := Put16(0) + [];
    var a5 := Put32(p.iOffset) + a6;
    var a4 := Put32(p.nSize) + a5;
    var a3 := Put16(p.nEntryTotal) + a4;
    var a2 := Put16(p.nEntry) + a3;
    var a1 := Put16(p.iFirstDisk) + a2;
    assert a6 == Put16(0) && b[4..] == Put16(p.iDisk) + a1;
    Placed16(b, 4, p.iDisk, a1);
    Placed16(b, 6, p.iFirstDisk, a2);
    Placed16(b, 8, p.nEntry, a3);
    Placed16(b, 10, p.nEntryTotal, a4);
    Placed32(b, 12, p.nSize, a5);
    Placed32(b, 16, p.iOffset, a6);
    Placed16(b, 20, 0, []);
  }

  /** The extra field that is written: id 0x5455, five bytes, the flag of the modification time and the time. */
  lemma TimeExtraLayout(t: u32)
    ensures TimeExtra(t)[..5] == [0x55, 0x54, 5, 0, 1] && Long(TimeExtra(t), 5, t)
  {
    assert TimeExtra(t)[5..] == Put32(t) + [];
    Placed32(TimeExtra(t), 5, t, []);
  }

  // ----- extra fields

  /** zipfileScanExtra: the time of the last timestamp field with the modification flag. */
  function ScanExtra(p: seq<byte>): Option<u32>
    decreases |p|
  {
    if |p| < 4 then None else
    var id := Get16(p);
    var nByte := Get16(p[2..]);
    var data := p[4..];
    var here := if id == EXTRA_TIMESTAMP && |data| >= 5 && data[0] % 2 == 1 then Some(Get32(data[1..])) else None;
    if nByte > |data| then here else
    var later := ScanExtra(data[nByte..]);
    if later.Some? then later else here
  }

  method ScanExtraFields(aExtra: seq<byte>) returns (pmTime: Option<u32>)
    ensures pmTime == ScanExtra(aExtra)
  {
    pmTime := None;
    var p := aExtra;
    while |p| >= 4
      invariant ScanExtra(aExtra) == if ScanExtra(p).Some? then ScanExtra(p) else pmTime
      decreases |p|
    {
      var id := Get16(p);
      var nByte := Get16(p[2..]);
      p := p[4..];
      if id == EXTRA_TIMESTAMP {
        if |p| >= 5 && p[0] % 2 == 1 {
          pmTime := Some(Get32(p[1..]));
        }
      }
      if nByte > |p| {
        return;
      }
      p := p[nByte..];
    }
  }

  lemma ScanTimeExtra(t: u32)
    ensures ScanExtra(TimeExtra(t)) == Some(t)
  {
    hide Put16, Put32, Get16, Get32;
    var b2 := [1] + Put32(t);
    var b1 := Put16(5) + b2;
    Get16Put16(EXTRA_TIMESTAMP, b1);
    Get16Put16(5, b2);
    assert TimeExtra(t)[4..] == b2;
    Get32Put32(t, []);
    assert b2[1..] == Put32(t) + [];
    assert b2[5..] == [];
  }

  // ----- the end record

  const BUFFER_SIZE := 64 * 1024

  predicate IsEndMark(b: seq<byte>, i: nat) {
    i + 4 <= |b| && b[i] == 0x50 && b[i + 1] == 0x4b && b[i + 2] == 0x05 && b[i + 3] == 0x06
  }

  /** zipfileReadEOCD: scans the last 64 KiB backwards for the signature. */
  method ReadEOCD(b: seq<byte>) returns (r: Option<EOCD>)
    ensures r == FindEOCD(b)
  {
    var nRead := if |b| < BUFFER_SIZE then |b| else BUFFER_SIZE;
    var aRead := b[|b| - nRead..];
    var i := nRead - 20;
    while i >= 0
      invariant i <= nRead - 20
      invariant LastMark(aRead, nRead - 20) == LastMark(aRead, i)
    {
      if aRead[i] == 0x50 && aRead[i + 1] == 0x4b && aRead[i + 2] == 0x05 && aRead[i + 3] == 0x06 {
        break;
      }
      i := i - 1;
    }
    if i < 0 {
      return None;
    }
    r := Some(ReadEOCDFields(aRead[i + 4..]));
  }

  /** The last position up to i where the signature stands, or -1. */
  function LastMark(b: seq<byte>, i: int): (k: int)
    requires i <= |b| - 20
    ensures -1 <= k && (k >= 0 ==> k <= i && IsEndMark(b, k))
    ensures forall j: nat :: k < j <= i ==> !IsEndMark(b, j)
    decreases i + 1
  {
    if i < 0 then -1 else if IsEndMark(b, i) then i else LastMark(b, i - 1)
  }

  function FindEOCD(b: seq<byte>): Option<EOCD> {
    var nRead := if |b| < BUFFER_SIZE then |b| else BUFFER_SIZE;
    var aRead := b[|b| - nRead..];
    var i := LastMark(aRead, nRead - 20);
    if i < 0 then None else Some(ReadEOCDFields(aRead[i + 4..]))
  }

  function ReadEOCDFields(a0: seq<byte>): EOCD
    requires |a0| >= 16
  {
    var a1 := a0[2..];
    var a2 := a1[2..];
    var a3 := a2[2..];
    var a4 := a3[2..];
    var a5 := a4[4..];
    EOCD(Get16(a0), Get16(a1), Get16(a2), Get16(a3), Get32(a4), Get32(a5))
  }

  lemma EOCDLength(p: EOCD)
    ensures |EOCDBytes(p)| == EOCD_FIXED_SZ
    ensures IsEndMark(EOCDBytes(p), 0) && EOCDBytes(p)[1] != 0x50 && EOCDBytes(p)[2] != 0x50
  {
    assert Put32(SIGNATURE_EOCD) == [0x50, 0x4b, 0x05, 0x06];
  }

  lemma EOCDFieldsRoundTrip(p: EOCD)
    ensures |EOCDBytes(p)[4..]| >= 16 && ReadEOCDFields(EOCDBytes(p)[4..]) == p
  {
    hide Put16, Put32, Get16, Get32;
    var a6 := Put16(0);
    var a5 := Put32(p.iOffset) + a6;
    var a4 := Put32(p.nSize) + a5;
    var a3 := Put16(p.nEntryTotal) + a4;
    var a2 := Put16(p.nEntry) + a3;
    var a1 := Put16(p.iFirstDisk) + a2;
    var a0 := Put16(p.iDisk) + a1;
    Get32Put32(SIGNATURE_EOCD, a0);
    Get16Put16(p.iDisk, a1);
    Get16Put16(p.iFirstDisk, a2);
    Get16Put16(p.nEntry, a3);
    Get16Put16(p.nEntryTotal, a4);
    Get32Put32(p.nSize, a5);
    Get32Put32(p.iOffset, a6);
  }

  /** Whatever an archive holds, the backward scan stops at its end record. */
  lemma EOCDFound(front: seq<byte>, p: EOCD)
    ensures FindEOCD(front + EOCDBytes(p)) == Some(p)
  {
    var e := EOCDBytes(p);
    EOCDLength(p);
    EOCDFieldsRoundTrip(p);
    hide EOCDBytes, ReadEOCDFields, LastMark;
    var b := front + e;
    var nRead := if |b| < BUFFER_SIZE then |b| else BUFFER_SIZE;
    var aRead := b[|b| - nRead..];
    var k := nRead - EOCD_FIXED_SZ;
    assert aRead[k..] == e;
    assert aRead[k] == e[0] && aRead[k + 1] == e[1] && aRead[k + 2] == e[2] && aRead[k + 3] == e[3];
    assert IsEndMark(aRead, k);
    assert LastMark(aRead, nRead - 20) == k;
    assert aRead[k + 4..] == e[4..];
  }
}
