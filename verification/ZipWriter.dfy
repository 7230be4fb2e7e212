/**
 * The zipfile() aggregate: growing buffers, one step per row, and the archive at the end; and
 * the loop that loads a directory. Together they give back every row.
 */
module ZipWriter {
  import opened Bytes
  import opened Options
  import opened DosTime
  import opened FileModes
  import opened ZipRecords
  import opened ZipArchive

  class ZipfileBuffer {
    var a: array<byte>
    var n: nat

    constructor ()
      ensures Valid() && fresh(a) && Contents() == []
    {
      a := new byte[0];
      n := 0;
    }

    ghost predicate Valid()
      reads this
    {
      n <= a.Length
    }

    ghost function Contents(): seq<byte>
      requires Valid()
      reads this, a
    {
      a[..n]
    }

    /** zipfileBufferGrow: makes room for nByte more bytes. */
    method Grow(nByte: nat)
      requires Valid()
      modifies this
      ensures Valid() && n == old(n) && n + nByte <= a.Length && Contents() == old(Contents())
      ensures a == old(a) || fresh(a)
    {
      if n + nByte > a.Length {
        var nNew := if n != 0 then n * 2 else 512;
        var nReq := n + nByte;
        while nNew < nReq
          invariant nNew > 0
          decreases nReq - nNew
        {
          nNew := nNew * 2;
        }
        var aNew := new byte[nNew];
        var i := 0;
        while i < n
          invariant i <= n <= aNew.Length && n == old(n) && a == old(a) && fresh(aNew)
          invariant aNew[..i] == a[..i] && a[..] == old(a[..])
        {
          aNew[i] := a[i];
          i := i + 1;
        }
        a := aNew;
      }
    }

    /** memcpy at the write position; rest is what is still to be written. */
    method Write(b: seq<byte>, ghost rest: seq<byte>)
      requires Valid() && n + |b| <= a.Length
      modifies this`n, a
      ensures Valid() && n == old(n) + |b|
      ensures Contents() == old(Contents()) + b && Contents() + rest == old(Contents()) + (b + rest)
    {
      var i := 0;
      while i < |b|
        invariant i <= |b| && n == old(n) + i && n + |b| - i <= a.Length
        invariant a[..n] == old(a[..n]) + b[..i]
      {
        a[n] := b[i];
        n := n + 1;
        i := i + 1;
      }
    }

    method Write16(v: u16, ghost rest: seq<byte>)
      requires Valid() && n + 2 <= a.Length
      modifies this`n, a
      ensures Valid() && n == old(n) + 2 && Contents() + rest == old(Contents()) + (Put16(v) + rest)
    {
      a[n] := v % 256;
      a[n + 1] := v / 256;
      n := n + 2;
      assert Contents() == old(Contents()) + Put16(v);
    }

    method Write32(v: u32, ghost rest: seq<byte>)
      requires Valid() && n + 4 <= a.Length
      modifies this`n, a
      ensures Valid() && n == old(n) + 4 && Contents() + rest == old(Contents()) + (Put32(v) + rest)
    {
      a[n] := v % 256;
      a[n + 1] := v / 256 % 256;
      a[n + 2] := v / 0x1_0000 % 256;
      a[n + 3] := v / 0x100_0000;
      n := n + 4;
      assert Contents() == old(Contents()) + Put32(v);
    }

    /** The extra field of both record types. */
    method WriteTime(t: u32)
      requires Valid() && n + 9 <= a.Length
      modifies this`n, a
      ensures Valid() && n == old(n) + 9 && Contents() == old(Contents()) + TimeExtra(t)
    {
      hide Put16, Put32;
      Write16(EXTRA_TIMESTAMP, Put16(5) + ([1] + Put32(t)));
      Write16(5, [1] + Put32(t));
      Write([1], Put32(t));
      Write32(t, []);
      assert Contents() + [] == Contents() && Put32(t) + [] == Put32(t);
    }

    /** zipfileSerializeLFH. */
    method SerializeLFH(c: CDS, t: u32)
      requires Valid() && n + LFH_FIXED_SZ + |c.zFile| + 9 <= a.Length
      modifies this`n, a
      ensures Valid() && Contents() == old(Contents()) + LFHBytes(c, c.zFile + TimeExtra(t))
      ensures n == old(n) + LFH_FIXED_SZ + |c.zFile| + 9
    {
      hide Put16, Put32, TimeExtra;
      ghost var z := c.zFile + TimeExtra(t);
      ghost var r9 := Put16(c.nExtra) + z;
      ghost var r8 := Put16(c.nFile) + r9;
      ghost var r7 := Put32(c.szUncompressed) + r8;
      ghost var r6 := Put32(c.szCompressed) + r7;
      ghost var r5 := Put32(c.crc32) + r6;
      ghost var r4 := Put16(c.stamp.mDate) + r5;
      ghost var r3 := Put16(c.stamp.mTime) + r4;
      ghost var r2 := Put16(c.iCompression) + r3;
      ghost var r1 := Put16(c.flags) + r2;
      ghost var r0 := Put16(c.iVersionExtract) + r1;
      Write32(SIGNATURE_LFH, r0);
      Write16(c.iVersionExtract, r1);
      Write16(c.flags, r2);
      Write16(c.iCompression, r3);
      Write16(c.stamp.mTime, r4);
      Write16(c.stamp.mDate, r5);
      Write32(c.crc32, r6);
      Write32(c.szCompressed, r7);
      Write32(c.szUncompressed, r8);
      Write16(c.nFile, r9);
      Write16(c.nExtra, z);
      Write(c.zFile, TimeExtra(t));
      WriteTime(t);
    }

    /** zipfileSerializeCDS, for an entry without extra data of its own. */
    method SerializeCDS(c: CDS, t: u32)
      requires Valid() && n + CDS_FIXED_SZ + |c.zFile| + 9 <= a.Length
      modifies this`n, a
      ensures Valid() && Contents() == old(Contents()) + CDSBytes(c, c.zFile + TimeExtra(t))
      ensures n == old(n) + CDS_FIXED_SZ + |c.zFile| + 9
    {
      hide Put16, Put32, TimeExtra;
      ghost var z := c.zFile + TimeExtra(t);
      ghost var r15 := Put32(c.iOffset) + z;
      ghost var r14 := Put32(c.iExternalAttr) + r15;
      ghost var r13 := Put16(c.iInternalAttr) + r14;
      ghost var r12 := Put16(c.iDiskStart) + r13;
      ghost var r11 := Put16(c.nComment) + r12;
      ghost var r10 := Put16(c.nExtra) + r11;
      ghost var r9 := Put16(c.nFile) + r10;
      ghost var r8 := Put32(c.szUncompressed) + r9;
      ghost var r7 := Put32(c.szCompressed) + r8;
      ghost var r6 := Put32(c.crc32) + r7;
      ghost var r5 := Put16(c.stamp.mDate) + r6;
      ghost var r4 := Put16(c.stamp.mTime) + r5;
      ghost var r3 := Put16(c.iCompression) + r4;
      ghost var r2 := Put16(c.flags) + r3;
      ghost var r1 := Put16(c.iVersionExtract) + r2;
      ghost var r0 := Put16(c.iVersionMadeBy) + r1;
      Write32(SIGNATURE_CDS, r0);
      Write16(c.iVersionMadeBy, r1);
      Write16(c.iVersionExtract, r2);
      Write16(c.flags, r3);
      Write16(c.iCompression, r4);
      Write16(c.stamp.mTime, r5);
      Write16(c.stamp.mDate, r6);
      Write32(c.crc32, r7);
      Write32(c.szCompressed, r8);
      Write32(c.szUncompressed, r9);
      Write16(c.nFile, r10);
      Write16(c.nExtra, r11);
      Write16(c.nComment, r12);
      Write16(c.iDiskStart, r13);
      Write16(c.iInternalAttr, r14);
      Write32(c.iExternalAttr, r15);
      Write32(c.iOffset, z);
      Write(c.zFile, TimeExtra(t));
      WriteTime(t);
    }

    /** zipfileSerializeEOCD. */
    method SerializeEOCD(p: EOCD)
      requires Valid() && n + EOCD_FIXED_SZ <= a.Length
      modifies this`n, a
      ensures Valid() && Contents() == old(Contents()) + EOCDBytes(p)
    {
      hide Put16, Put32;
      ghost var r5 := Put32(p.iOffset) + Put16(0);
      ghost var r4 := Put32(p.nSize) + r5;
      ghost var r3 := Put16(p.nEntryTotal) + r4;
      ghost var r2 := Put16(p.nEntry) + r3;
      ghost var r1 := Put16(p.iFirstDisk) + r2;
      ghost var r0 := Put16(p.iDisk) + r1;
      Write32(SIGNATURE_EOCD, r0);
      Write16(p.iDisk, r1);
      Write16(p.iFirstDisk, r2);
      Write16(p.nEntry, r3);
      Write16(p.nEntryTotal, r4);
      Write32(p.nSize, r5);
      Write32(p.iOffset, Put16(0));
      Write16(0, []);
      assert Contents() + [] == Contents() && Put16(0) + [] == Put16(0);
    }
  }

  // ----- the arguments of one row

  /** The source looks at the last byte of a name, so a name has one. */
  type Name = s: seq<byte> | s != [] witness [SLASH]

  /** zipfile(name, mode, mtime, data, method); absent values are SQL NULLs, and now is the time of the call. */
  datatype Arg = Arg(name: Option<Name>, mode: Option<ModeArg>, mtime: Option<u32>, data: Option<seq<byte>>,
                     method_: Option<int>, now: u32)

  datatype StepError = NullName | IllegalMethod | BadMode | ModeMismatch | SlashInFileName

  datatype StepResult = Added(item: Item) | Refused(error: StepError)

  /** Exactly one slash at the end. */
  function DirectoryName(zName: Name): Name
  {
    var k := |zName|;
    if zName[k - 1] != SLASH then zName + [SLASH]
    else if k > 1 && zName[k - 2] == SLASH then DirectoryName(zName[..k - 1])
    else zName
  }

  predicate IsDirectoryMode(mode: u32) {
    mode / S_IFDIR % 2 == 1
  }

  /** The mode of an entry, which must fit what the entry is. */
  function GetMode(mode: Option<ModeArg>, bIsDir: bool): Option<u32> {
    var m := ModeOf(mode, bIsDir);
    if m.Some? && IsDirectoryMode(m.value) == bIsDir then m else None
  }

  /** zipfileGetMode */
  method ZipfileGetMode(mode: Option<ModeArg>, bIsDir: bool) returns (m: Option<u32>, error: StepError)
    ensures m == GetMode(mode, bIsDir)
    ensures m.None? ==> error == if ModeOf(mode, bIsDir).None? then BadMode else ModeMismatch
  {
    match mode {
      case None =>
        m := Some(if bIsDir then S_IFDIR + 0x1ed else S_IFREG + 0x1a4);
      case Some(Number(n)) =>
        m := Some(n);
      case Some(ModeText(z)) =>
        m := ParseMode(z);
    }
    error := BadMode;
    if m.Some? && IsDirectoryMode(m.value) != bIsDir {
      m, error := None, ModeMismatch;
    }
  }

  /** zipfileGetTime */
  function GetTime(row: Arg): u32 {
    if row.mtime.Some? then row.mtime.value else row.now
  }

  /** Stored bytes and compression method of a file. */
  function Stored(z: Zlib, data: seq<byte>, method_: Option<int>): (seq<byte>, u16) {
    if method_ == Some(0) then (data, 0) else
    var packed := z.deflate(data);
    if method_ == Some(8) || |packed| < |data| then (packed, 8) else (data, 0)
  }

  /** The entry of a row whose local part starts at iOffset, or why the row is refused. */
  function RowItem(z: Zlib, row: Arg, iOffset: nat): StepResult
  {
    if row.name.None? then Refused(NullName)
    else if row.method_.Some? && row.method_.value != 0 && row.method_.value != 8 then Refused(IllegalMethod) else
    var bIsDir := row.data.None?;
    var m := GetMode(row.mode, bIsDir);
    var zName := row.name.value;
    if m.None? then Refused(if ModeOf(row.mode, bIsDir).None? then BadMode else ModeMismatch)
    else if !bIsDir && zName[|zName| - 1] == SLASH then Refused(SlashInFileName) else
    var name := if bIsDir then DirectoryName(zName) else zName;
    var raw := if bIsDir then [] else row.data.value;
    var (data, how) := if bIsDir then ([], 0) else Stored(z, raw, row.method_);
    hide ToDos;
    var t := GetTime(row);
    Added(Item(NewRecord(name, m.value, t, how, if bIsDir then 0 else z.crc32(raw), |raw|, |data|, iOffset), t, data))
  }

  /** The directory record of a new entry; C's integer conversions cut what does not fit. */
  function NewRecord(zName: seq<byte>, mode: u32, mtime: u32, iMethod: u16, iCrc32: u32,
                     szUncompressed: nat, nData: nat, iOffset: nat): CDS
  {
    var nFile := |zName| % 0x1_0000;
    CDS(NEWENTRY_MADEBY, NEWENTRY_REQUIRED, NEWENTRY_FLAGS, iMethod, ToDos(mtime), iCrc32,
        nData % 0x1_0000_0000, szUncompressed % 0x1_0000_0000, nFile, 9, 0, 0, 0,
        mode % 0x1_0000 * 0x1_0000, iOffset % 0x1_0000_0000, zName[..nFile])
  }

  /** The first part of zipfileStep: checks, compression, and the record of the new entry. */
  method MakeItem(z: Zlib, row: Arg, iOffset: nat) returns (r: StepResult)
    ensures r == RowItem(z, row, iOffset)
  {
    hide NewRecord, DirectoryName, ModeOf;
    if row.name.None? {
      return Refused(NullName);
    }
    var zName := row.name.value;
    var iMethod := -1;
    if row.method_.Some? {
      iMethod := row.method_.value;
      if iMethod != 0 && iMethod != 8 {
        return Refused(IllegalMethod);
      }
    }
    var bIsDir := false;
    var aData: seq<byte>, iCrc32: u32, szUncompressed := [], 0, 0;
    if row.data.None? {
      bIsDir := true;
      iMethod := 0;
    } else {
      aData := row.data.value;
      szUncompressed := |aData|;
      iCrc32 := z.crc32(aData);
      if iMethod < 0 || iMethod == 8 {
        var aFree := z.deflate(aData);
        if iMethod == 8 || |aFree| < |aData| {
          aData := aFree;
          iMethod := 8;
        } else {
          iMethod := 0;
        }
      }
    }
    var mode, error := ZipfileGetMode(row.mode, bIsDir);
    if mode.None? {
      return Refused(error);
    }
    var t := GetTime(row);
    if !bIsDir {
      if zName[|zName| - 1] == SLASH {
        return Refused(SlashInFileName);
      }
    } else {
      zName := FixDirectoryName(zName);
    }
    var c := NewRecord(zName, mode.value, t, iMethod, iCrc32, szUncompressed, |aData|, iOffset);
    r := Added(Item(c, t, aData));
  }

  /** Local header, name, time and data. */
  method AddLocal(body: ZipfileBuffer, e: Item)
    requires body.Valid()
    modifies body, body.a
    ensures body.Valid() && (body.a == old(body.a) || fresh(body.a))
    ensures body.Contents() == old(body.Contents()) + LocalPart(e)
  {
    hide LFHBytes, TimeExtra;
    body.Grow(LFH_FIXED_SZ + |e.cds.zFile| + 9);
    body.SerializeLFH(e.cds, e.mUnixTime);
    if |e.data| > 0 {
      body.Grow(|e.data|);
      body.Write(e.data, []);
    }
  }

  method AddDirectory(cds: ZipfileBuffer, e: Item)
    requires cds.Valid()
    modifies cds, cds.a
    ensures cds.Valid() && (cds.a == old(cds.a) || fresh(cds.a))
    ensures cds.Contents() == old(cds.Contents()) + DirectoryPart(e)
  {
    hide CDSBytes, TimeExtra;
    cds.Grow(CDS_FIXED_SZ + |e.cds.zFile| + 9);
    cds.SerializeCDS(e.cds, e.mUnixTime);
  }

  lemma PartsAppend(es: seq<Item>, e: Item)
    ensures Body(es + [e]) == Body(es) + LocalPart(e)
    ensures Directory(es + [e]) == Directory(es) + DirectoryPart(e)
  {
    assert (es + [e])[..|es|] == es;
  }

  class ZipfileCtx {
    var nEntry: nat
    const body: ZipfileBuffer
    const cds: ZipfileBuffer
    /** The entries added so far. */
    ghost var items: seq<Item>

    ghost predicate Valid()
      reads this, body, body.a, cds, cds.a
    {
      && body.Valid() && cds.Valid() && body != cds && body.a != cds.a
      && nEntry == |items|
      && body.Contents() == Body(items) && cds.Contents() == Directory(items)
    }

    constructor ()
      ensures Valid() && items == []
      ensures fresh(body) && fresh(body.a) && fresh(cds) && fresh(cds.a)
    {
      nEntry := 0;
      body := new ZipfileBuffer();
      cds := new ZipfileBuffer();
      items := [];
    }

    /** zipfileStep. */
    method Step(z: Zlib, row: Arg) returns (r: StepResult)
      requires Valid()
      modifies this, body, body.a, cds, cds.a
      ensures Valid() && (body.a == old(body.a) || fresh(body.a)) && (cds.a == old(cds.a) || fresh(cds.a))
      ensures r == RowItem(z, row, |Body(old(items))|)
      ensures items == if r.Added? then old(items) + [r.item] else old(items)
    {
      r := MakeItem(z, row, body.n);
      if r.Added? {
        Append(r.item);
      }
    }

    /** The end of zipfileStep: local header, data, directory record, count. */
    method Append(e: Item)
      requires Valid()
      modifies this, body, body.a, cds, cds.a
      ensures Valid() && (body.a == old(body.a) || fresh(body.a)) && (cds.a == old(cds.a) || fresh(cds.a))
      ensures items == old(items) + [e]
    {
      hide LocalPart, DirectoryPart, Body, Directory;
      AddLocal(body, e);
      AddDirectory(cds, e);
      PartsAppend(items, e);
      nEntry := nEntry + 1;
      items := items + [e];
    }

    /** zipfileFinal. */
    method Final() returns (aZip: Option<seq<byte>>)
      requires Valid()
      ensures aZip == if items == [] then None else Some(Archive(items))
    {
      hide EOCDBytes, Body, Directory;
      if nEntry == 0 {
        return None;
      }
      var eocd := EOCD(0, 0, nEntry % 0x1_0000, nEntry % 0x1_0000, cds.n % 0x1_0000_0000, body.n % 0x1_0000_0000);
      var zip := new ZipfileBuffer();
      zip.Grow(body.n + cds.n + EOCD_FIXED_SZ);
      zip.Write(body.a[..body.n], []);
      zip.Write(cds.a[..cds.n], []);
      zip.SerializeEOCD(eocd);
      assert zip.Contents() == Archive(items);
      aZip := Some(zip.a[..zip.n]);
    }
  }

  method FixDirectoryName(name: Name) returns (zName: Name)
    ensures zName == DirectoryName(name)
  {
    zName := name;
    var nName := |zName|;
    if zName[nName - 1] != SLASH {
      zName := zName + [SLASH];
    } else {
      assert zName[..nName] == name;
      while nName > 1 && zName[nName - 2] == SLASH
        invariant 1 <= nName <= |zName| && zName[nName - 1] == SLASH
        invariant DirectoryName(zName[..nName]) == DirectoryName(name)
      {
        assert zName[..nName][..nName - 1] == zName[..nName - 1];
        nName := nName - 1;
      }
      zName := zName[..nName];
    }
  }

  /** zipfileLoadDirectory on an archive in memory. */
  method LoadDirectory(aBlob: seq<byte>) returns (r: LoadResult<seq<Entry>>)
    ensures r == Loaded(aBlob)
  {
    hide GetEntry, FindEOCD, Following;
    var eocd := ReadEOCD(aBlob);
    if eocd.None? {
      return NoEOCD;
    }
    var iOff: nat := eocd.value.iOffset;
    var n: nat := eocd.value.nEntry;
    var list: seq<Entry> := [];
    var i := 0;
    NothingInFront(EntriesFrom(aBlob, iOff, n));
    while i < n
      invariant 0 <= i <= n
      invariant Loaded(aBlob) == WithFront(list, EntriesFrom(aBlob, iOff, n - i))
    {
      var e := GetEntry(aBlob, iOff);
      if !e.Ok? {
        return Failure(e);
      }
      OneMoreInFront(list, e.value, EntriesFrom(aBlob, Following(iOff, e.value), n - i - 1));
      list := list + [e.value];
      iOff := Following(iOff, e.value);
      i := i + 1;
    }
    assert list + [] == list;
    r := Ok(list);
  }

  lemma NothingInFront(r: LoadResult<seq<Entry>>)
    ensures WithFront([], r) == r
  {
    if r.Ok? {
      assert [] + r.value == r.value;
    }
  }

  lemma OneMoreInFront(front: seq<Entry>, e: Entry, r: LoadResult<seq<Entry>>)
    ensures WithFront(front, Prepended(e, r)) == WithFront(front + [e], r)
  {
    if r.Ok? {
      assert front + ([e] + r.value) == front + [e] + r.value;
    }
  }

  function WithFront(front: seq<Entry>, r: LoadResult<seq<Entry>>): LoadResult<seq<Entry>> {
    if r.Ok? then Ok(front + r.value) else r
  }

  // ----- rows in, rows out

  /** All rows in turn; absent as soon as one is refused. */
  function Items(z: Zlib, rows: seq<Arg>): Option<seq<Item>>
  {
    if rows == [] then Some([]) else
    match Items(z, rows[..|rows| - 1])
    case None => None
    case Some(es) =>
      hide RowItem;
      match RowItem(z, rows[|rows| - 1], |Body(es)|)
      case Added(e) => Some(es + [e])
      case Refused(_) => None
  }

  /** No blob for an error or for no rows at all. */
  function Aggregated(z: Zlib, rows: seq<Arg>): Option<seq<byte>> {
    if rows == [] || Items(z, rows).None? then None else Some(Archive(Items(z, rows).value))
  }

  /** SELECT zipfile(...) over the rows. */
  method Zipfile(z: Zlib, rows: seq<Arg>) returns (r: Option<seq<byte>>)
    ensures r == Aggregated(z, rows)
  {
    hide RowItem, Archive, Body, Directory;
    var p := new ZipfileCtx();
    var i := 0;
    while i < |rows|
      invariant i <= |rows| && p.Valid() && fresh(p)
      invariant fresh(p.body) && fresh(p.body.a) && fresh(p.cds) && fresh(p.cds.a)
      invariant Items(z, rows[..i]) == Some(p.items) && |p.items| == i
    {
      var s := p.Step(z, rows[i]);
      assert rows[..i + 1][..i] == rows[..i];
      if s.Refused? {
        RefusedForGood(z, rows, i + 1);
        return None;
      }
      i := i + 1;
    }
    assert rows[..i] == rows;
    r := p.Final();
  }

  lemma {:induction false} RefusedForGood(z: Zlib, rows: seq<Arg>, i: nat)
    requires i <= |rows| && Items(z, rows[..i]).None?
    ensures Items(z, rows).None?
    decreases |rows|
  {
    hide RowItem;
    if i == |rows| {
      assert rows[..i] == rows;
    } else {
      assert rows[..|rows| - 1][..i] == rows[..i];
      RefusedForGood(z, rows[..|rows| - 1], i);
    }
  }

  /** A mode argument that can be read, for a directory just when there is no data, within 16 bits. */
  predicate ModeFits(mode: Option<ModeArg>, bIsDir: bool) {
    match mode
    case None => true
    case Some(Number(n)) => n < 0x1_0000 && (n / 0x4000 % 2 == 1) == bIsDir
    case Some(ModeText(z)) => IsModeText(z) && (z[0] == 100) == bIsDir
  }

  /** A row that the writer accepts and whose values fit the fields of the format. */
  predicate Fits(row: Arg) {
    && row.name.Some? && 0 !in row.name.value
    && (row.method_.Some? ==> row.method_.value == 0 || row.method_.value == 8)
    && ModeFits(row.mode, row.data.None?)
    && (row.data.None? ==> |DirectoryName(row.name.value)| < 0x1_0000)
    && (row.data.Some? ==> |row.name.value| < 0x1_0000 && row.name.value[|row.name.value| - 1] != 47
                           && |row.data.value| < 0x1_0000_0000)
  }

  // ----- what the arguments ask for

  /** The name of a file is kept; the name of a directory gets exactly one slash at its end. */
  predicate NameShown(name: Name, bIsDir: bool, z: seq<byte>) {
    if !bIsDir then z == name else
    && z != [] && z[|z| - 1] == 47 && (|z| > 1 ==> z[|z| - 2] != 47)
    && (if name[|name| - 1] == 47 then z <= name && forall i :: |z| <= i < |name| ==> name[i] == 47 else z == name + [47])
  }

  /** The mode stands in the upper half of the attributes; it is 040755 or 0100644 for NULL. */
  predicate ModeShown(mode: Option<ModeArg>, bIsDir: bool, attr: u32) {
    match mode
    case None => attr == 0x1_0000 * if bIsDir then 0x41ed else 0x81a4
    case Some(Number(n)) => attr == 0x1_0000 * n
    case Some(ModeText(z)) => IsModeText(z) && attr == 0x1_0000 * SpelledMode(z)
  }

  /** The data itself for method 0, deflated for method 8, the shorter of the two for NULL; nothing for a directory. */
  predicate DataShown(z: Zlib, data: Option<seq<byte>>, method_: Option<int>, e: Entry) {
    && e.cds.szCompressed == |e.aData|
    && match data
       case None => e.aData == [] && e.cds.iCompression == 0 && e.cds.szUncompressed == 0 && e.cds.crc32 == 0
       case Some(d) =>
         && e.cds.szUncompressed == |d| && e.cds.crc32 == z.crc32(d)
         && match method_
            case Some(m) => if m == 0 then e.aData == d && e.cds.iCompression == 0
                            else e.aData == z.deflate(d) && e.cds.iCompression == 8
            case None => if |z.deflate(d)| < |d| then e.aData == z.deflate(d) && e.cds.iCompression == 8
                         else e.aData == d && e.cds.iCompression == 0
  }

  /** What is loaded for a row, from its arguments alone. */
  predicate Shows(z: Zlib, row: Arg, e: Entry) {
    && row.name.Some? && NameShown(row.name.value, row.data.None?, e.cds.zFile)
    && (row.mtime.Some? ==> e.mUnixTime == row.mtime.value) && (row.mtime.None? ==> e.mUnixTime == row.now)
    && e.cds.stamp == ToDos(e.mUnixTime)
    && ModeShown(row.mode, row.data.None?, e.cds.iExternalAttr)
    && DataShown(z, row.data, row.method_, e)
    && e.cds.iVersionMadeBy == 0x31e && e.cds.iVersionExtract == 20 && e.cds.flags == 0x800
  }

  /** A directory name loses surplus slashes or gains the missing one, and nothing else. */
  lemma {:induction false} DirectoryNameForm(name: Name)
    ensures var r := DirectoryName(name);
            && r[|r| - 1] == SLASH && (|r| > 1 ==> r[|r| - 2] != SLASH)
            && (if name[|name| - 1] == SLASH then r <= name && forall i :: |r| <= i < |name| ==> name[i] == SLASH
                else r == name + [SLASH])
            && (0 !in name ==> 0 !in r)
  {
    var k := |name|;
    if name[k - 1] != SLASH || k == 1 || name[k - 2] != SLASH {
    } else {
      DirectoryNameForm(name[..k - 1]);
    }
  }

  lemma ModeRead(mode: Option<ModeArg>, bIsDir: bool)
    requires ModeFits(mode, bIsDir)
    ensures GetMode(mode, bIsDir).Some? && GetMode(mode, bIsDir).value < 0x1_0000
    ensures ModeShown(mode, bIsDir, 0x1_0000 * GetMode(mode, bIsDir).value)
  {
    hide ParsedMode;
    match mode
    case None =>
    case Some(Number(n)) =>
    case Some(ModeText(z)) =>
      ParsedExactly(z);
      SpelledBounds(z);
  }

  lemma SpelledBounds(z: seq<byte>)
    requires IsModeText(z)
    ensures SpelledMode(z) < 0x1_0000 && (SpelledMode(z) / 0x4000 % 2 == 1 <==> z[0] == 100)
  {
  }

  lemma StoredMeans(z: Zlib, data: seq<byte>, method_: Option<int>)
    requires method_.Some? ==> method_.value == 0 || method_.value == 8
    ensures Stored(z, data, method_)
         == match method_
            case Some(m) => if m == 0 then (data, 0) else (z.deflate(data), 8)
            case None => if |z.deflate(data)| < |data| then (z.deflate(data), 8) else (data, 0)
  {
  }

  /** Which rows are refused, by the first of their arguments that is wrong. */
  lemma RefusedExactly(z: Zlib, row: Arg, iOffset: nat)
    ensures var r, bIsDir := RowItem(z, row, iOffset), row.data.None?;
            if row.name.None? then r == Refused(NullName)
            else if row.method_.Some? && row.method_.value != 0 && row.method_.value != 8 then r == Refused(IllegalMethod)
            else if row.mode.Some? && row.mode.value.ModeText? && !IsModeText(row.mode.value.z) then r == Refused(BadMode)
            else if row.mode.Some? && row.mode.value.ModeText? && (row.mode.value.z[0] == 100) != bIsDir then
              r == Refused(ModeMismatch)
            else if row.mode.Some? && row.mode.value.Number? && (row.mode.value.n / 0x4000 % 2 == 1) != bIsDir then
              r == Refused(ModeMismatch)
            else if !bIsDir && row.name.value[|row.name.value| - 1] == 47 then r == Refused(SlashInFileName)
            else r.Added?
  {
    hide NewRecord, DirectoryName, Stored, ParsedMode, SpelledMode, IsModeText;
    if row.mode.Some? && row.mode.value.ModeText? {
      ParsedExactly(row.mode.value.z);
      if IsModeText(row.mode.value.z) {
        SpelledBounds(row.mode.value.z);
      }
    }
  }

  lemma RowConsistent(z: Zlib, row: Arg, iOffset: nat)
    requires Fits(row) && iOffset < 0x1_0000_0000
    ensures var r := RowItem(z, row, iOffset);
            r.Added? && (|r.item.data| < 0x1_0000_0000 ==> Consistent(r.item, iOffset) && ReadsAs(z, r.item, row))
  {
    hide ToDos, DirectoryName, Stored, ParsedMode, SpelledMode, IsModeText;
    DirectoryNameForm(row.name.value);
    ModeRead(row.mode, row.data.None?);
    if row.data.Some? {
      StoredMeans(z, row.data.value, row.method_);
    }
    var name := if row.data.None? then DirectoryName(row.name.value) else row.name.value;
    assert name[..|name|] == name;
  }

  /** Entry e, once loaded, shows the values of the row. */
  ghost predicate ReadsAs(z: Zlib, e: Item, row: Arg) {
    Fits(row) && Shows(z, row, AsLoaded(e))
  }

  ghost predicate AllReadAs(z: Zlib, es: seq<Item>, rows: seq<Arg>) {
    |es| == |rows| && forall i :: 0 <= i < |rows| ==> ReadsAs(z, es[i], rows[i])
  }

  ghost predicate AllFit(rows: seq<Arg>) {
    forall i :: 0 <= i < |rows| ==> Fits(rows[i])
  }

  lemma {:induction false} ItemsConsistent(z: Zlib, rows: seq<Arg>)
    requires AllFit(rows)
    requires Items(z, rows).Some? && |Body(Items(z, rows).value)| < 0x1_0000_0000
    ensures WellFormed(Items(z, rows).value) && AllReadAs(z, Items(z, rows).value, rows)
  {
    if rows == [] {
    } else {
      var n := |rows| - 1;
      ItemsStep(z, rows);
      var before := Items(z, rows[..n]).value;
      var r := RowItem(z, rows[n], |Body(before)|);
      PartsAppend(before, r.item);
      LocalLength(r.item);
      RowConsistent(z, rows[n], |Body(before)|);
      hide *;
      FitsPrefix(rows);
      ItemsConsistent(z, rows[..n]);
      WellFormedAppend(before, r.item);
      ReadsAppend(z, before, r.item, rows);
    }
  }

  lemma FitsPrefix(rows: seq<Arg>)
    requires AllFit(rows) && rows != []
    ensures AllFit(rows[..|rows| - 1])
  {
    hide Fits;
  }

  lemma ReadsAppend(z: Zlib, es: seq<Item>, e: Item, rows: seq<Arg>)
    requires rows != [] && AllReadAs(z, es, rows[..|rows| - 1]) && ReadsAs(z, e, rows[|rows| - 1])
    ensures AllReadAs(z, es + [e], rows)
  {
    hide ReadsAs;
    forall i | 0 <= i < |rows| ensures ReadsAs(z, (es + [e])[i], rows[i]) {
      if i < |es| {
        assert rows[..|rows| - 1][i] == rows[i];
      }
    }
  }

  lemma WellFormedAppend(es: seq<Item>, e: Item)
    requires WellFormed(es) && Consistent(e, |Body(es)|)
    ensures WellFormed(es + [e])
  {
    hide Consistent, Body;
    var all := es + [e];
    forall i | 0 <= i < |all| ensures Consistent(all[i], |Body(all[..i])|) {
      if i < |es| {
        assert all[..i] == es[..i];
      } else {
        assert all[..i] == es;
      }
    }
  }

  lemma ItemsStep(z: Zlib, rows: seq<Arg>)
    requires rows != [] && Items(z, rows).Some?
    ensures var n := |rows| - 1;
            && Items(z, rows[..n]).Some?
            && var r := RowItem(z, rows[n], |Body(Items(z, rows[..n]).value)|);
               r.Added? && Items(z, rows).value == Items(z, rows[..n]).value + [r.item]
  {
    hide RowItem;
  }

  lemma LocalLength(e: Item)
    ensures |e.data| <= |LocalPart(e)|
  {
  }

  lemma {:induction false} FittingRowsAccepted(z: Zlib, rows: seq<Arg>)
    requires AllFit(rows)
    ensures Items(z, rows).Some?
  {
    if rows == [] {
    } else {
      var n := |rows| - 1;
      FittingRowsAccepted(z, rows[..n]);
      RowAccepted(z, rows[n], |Body(Items(z, rows[..n]).value)|);
      hide RowItem;
    }
  }

  lemma RowAccepted(z: Zlib, row: Arg, iOffset: nat)
    requires Fits(row)
    ensures RowItem(z, row, iOffset).Added?
  {
    hide NewRecord, DirectoryName, Stored, GetMode, ModeFits;
    ModeRead(row.mode, row.data.None?);
  }

  /** Every archive that is built within the limits of the format loads back to the same rows, in order. */
  lemma RowsRoundTrip(z: Zlib, rows: seq<Arg>)
    requires |rows| < 0x1_0000 && AllFit(rows)
    ensures Aggregated(z, rows).Some? <==> rows != []
    ensures rows != [] ==>
            var blob := Aggregated(z, rows).value;
            |blob| < 0x1_0000_0000 ==>
              && Loaded(blob).Ok? && |Loaded(blob).value| == |rows|
              && forall i :: 0 <= i < |rows| ==> Shows(z, rows[i], Loaded(blob).value[i])
  {
    hide Items, Fits, Shows, AsLoaded, EOCDBytes, Body, Directory, Loaded;
    FittingRowsAccepted(z, rows);
    var es := Items(z, rows).value;
    if |Archive(es)| < 0x1_0000_0000 {
      assert |Body(es)| <= |Archive(es)|;
      ItemsConsistent(z, rows);
      ArchiveRoundTrip(es);
      forall i | 0 <= i < |rows| ensures Shows(z, rows[i], AsLoaded(es[i])) {
        assert ReadsAs(z, es[i], rows[i]);
      }
    }
  }

  /** The zipfile() table over the blob of the zipfile() aggregate. */
  method ZipfileThenLoad(z: Zlib, rows: seq<Arg>) returns (aBlob: Option<seq<byte>>, r: LoadResult<seq<Entry>>)
    requires |rows| < 0x1_0000 && AllFit(rows)
    ensures aBlob.None? <==> rows == []
    ensures aBlob.Some? && |aBlob.value| < 0x1_0000_0000 ==>
      && r.Ok? && |r.value| == |rows|
      && forall i :: 0 <= i < |rows| ==> Shows(z, rows[i], r.value[i])
  {
    hide *;
    RowsRoundTrip(z, rows);
    aBlob := Zipfile(z, rows);
    r := NoEOCD;
    if aBlob.Some? {
      r := LoadDirectory(aBlob.value);
    }
  }
}
