/**
 * Whole ZIP archives: the zipfile() aggregate builds one in memory, the loader of the zipfile
 * table reads the entries back.
 */
module ZipArchive {
  import opened Bytes
  import opened DosTime
  import opened Options
  import Texts
  import opened ZipRecords

  const NEWENTRY_MADEBY: u16 := 3 * 256 + 30
  const NEWENTRY_REQUIRED: u16 := 20
  const NEWENTRY_FLAGS: u16 := 0x800
  const SLASH: byte := '/' as int

  /** zlib, as far as the writer uses it. */
  datatype Zlib = Zlib(crc32: seq<byte> -> u32, deflate: seq<byte> -> seq<byte>)

  // ----- the archive that a list of entries makes

  /** One entry as the writer holds it: directory record, Unix time and stored bytes. */
  datatype Item = Item(cds: CDS, mUnixTime: u32, data: seq<byte>)

  function LocalPart(e: Item): (b: seq<byte>) {
    LFHBytes(e.cds, e.cds.zFile + TimeExtra(e.mUnixTime)) + e.data
  }

  function DirectoryPart(e: Item): (b: seq<byte>) {
    CDSBytes(e.cds, e.cds.zFile + TimeExtra(e.mUnixTime))
  }

  function Body(es: seq<Item>): seq<byte> {
    if es == [] then [] else Body(es[..|es| - 1]) + LocalPart(es[|es| - 1])
  }

  function Directory(es: seq<Item>): seq<byte> {
    if es == [] then [] else Directory(es[..|es| - 1]) + DirectoryPart(es[|es| - 1])
  }

  function EndRecord(es: seq<Item>): EOCD {
    EOCD(0, 0, |es| % 0x1_0000, |es| % 0x1_0000, |Directory(es)| % 0x1_0000_0000, |Body(es)| % 0x1_0000_0000)
  }

  function Archive(es: seq<Item>): seq<byte> {
    Body(es) + Directory(es) + EOCDBytes(EndRecord(es))
  }

  /** The record of an entry agrees with its name, its data and its place in the archive. */
  predicate Consistent(e: Item, iOffset: nat) {
    && e.cds.nFile == |e.cds.zFile| && e.cds.nExtra == 9 && e.cds.nComment == 0
    && e.cds.szCompressed == |e.data| && e.cds.iOffset == iOffset
    && 0 !in e.cds.zFile
  }

  ghost predicate WellFormed(es: seq<Item>) {
    forall i :: 0 <= i < |es| ==> Consistent(es[i], |Body(es[..i])|)
  }

  // ----- loading

  /** An entry as the loader builds it. */
  datatype Entry = Entry(cds: CDS, mUnixTime: u32, aExtra: seq<byte>, iDataOff: nat, aData: seq<byte>)

  /** BadCDS and BadLFH are wrong signatures. PastEnd: the source goes on to read past the blob. */
  datatype LoadResult<+T> = Ok(value: T) | NoEOCD | BadCDS | BadLFH | PastEnd

  /** The text that printf's %.*s takes from a buffer. */
  function UpToNul(b: seq<byte>): seq<byte> {
    if b == [] || b[0] == 0 then [] else [b[0]] + UpToNul(b[1..])
  }

  /** zipfileGetEntry on an archive in memory. */
  function GetEntry(b: seq<byte>, iOff: nat): LoadResult<Entry> {
    if iOff + CDS_FIXED_SZ > |b| then PastEnd else
    match ReadCDS(b[iOff..])
    case None => BadCDS
    case Some(cds) =>
      var aRead := b[iOff..][CDS_FIXED_SZ..];
      if cds.nFile + cds.nExtra + cds.nComment > |aRead| then PastEnd else
      var cds' := cds.(zFile := UpToNul(aRead[..cds.nFile]));
      var extra := aRead[cds.nFile..][..cds.nExtra];
      var time := match ScanExtra(extra) case Some(t) => t case None => Mtime(cds.stamp);
      if cds.iOffset + LFH_FIXED_SZ > |b| then PastEnd else
      match ReadLFH(b[cds.iOffset..])
      case None => BadLFH
      case Some(lfh) =>
        var iDataOff := cds.iOffset + LFH_FIXED_SZ + (lfh.nFile + lfh.nExtra);
        if iDataOff + cds.szCompressed > |b| then PastEnd else
        Ok(Entry(cds', time, aRead[cds.nFile..][..cds.nExtra + cds.nComment], iDataOff,
                 b[iDataOff..][..cds.szCompressed]))
  }

  /** The offset of the directory record after the one of e. */
  function Following(iOff: nat, e: Entry): nat {
    iOff + CDS_FIXED_SZ + (e.cds.nExtra + e.cds.nFile + e.cds.nComment)
  }

  function Failure(r: LoadResult<Entry>): LoadResult<seq<Entry>>
    requires !r.Ok?
  {
    match r
    case NoEOCD => NoEOCD
    case BadCDS => BadCDS
    case BadLFH => BadLFH
    case PastEnd => PastEnd
  }

  function Prepended(e: Entry, r: LoadResult<seq<Entry>>): LoadResult<seq<Entry>> {
    if r.Ok? then Ok([e] + r.value) else r
  }

  /** The n entries whose directory records start at iOff, in order. */
  function EntriesFrom(b: seq<byte>, iOff: nat, n: nat): LoadResult<seq<Entry>>
    decreases n
  {
    if n == 0 then Ok([]) else
    hide GetEntry;
    var r := GetEntry(b, iOff);
    if !r.Ok? then Failure(r) else Prepended(r.value, EntriesFrom(b, Following(iOff, r.value), n - 1))
  }

  function Loaded(b: seq<byte>): LoadResult<seq<Entry>> {
    match FindEOCD(b)
    case None => NoEOCD
    case Some(eocd) => EntriesFrom(b, eocd.iOffset, eocd.nEntry)
  }

  // ----- what is written is what is loaded

  /** The entry that the loader makes of an item. */
  function AsLoaded(e: Item): Entry {
    Entry(e.cds, e.mUnixTime, TimeExtra(e.mUnixTime), e.cds.iOffset + LFH_FIXED_SZ + (e.cds.nFile + e.cds.nExtra), e.data)
  }

  lemma {:induction false} UpToNulWhole(s: seq<byte>)
    requires 0 !in s
    ensures UpToNul(s) == s
  {
    if s == [] {
    } else {
      UpToNulWhole(s[1..]);
    }
  }

  lemma DirectoryRead(b: seq<byte>, iOff: nat, e: Item, dirRest: seq<byte>)
    requires iOff <= |b| && b[iOff..] == DirectoryPart(e) + dirRest && Consistent(e, e.cds.iOffset)
    ensures iOff + CDS_FIXED_SZ <= |b| && ReadCDS(b[iOff..]) == Some(e.cds.(zFile := []))
    ensures var aRead := b[iOff..][CDS_FIXED_SZ..];
            && |aRead| >= e.cds.nFile + 9 && aRead[..e.cds.nFile] == e.cds.zFile
            && aRead[e.cds.nFile..][..9] == TimeExtra(e.mUnixTime)
  {
    hide ReadCDS, CDSBytes, TimeExtra;
    var c, x := e.cds, TimeExtra(e.mUnixTime);
    CDSRoundTrip(c, c.zFile + x + dirRest);
    CDSPrefix(c, c.zFile + x, dirRest);
    assert b[iOff..][CDS_FIXED_SZ..] == c.zFile + x + dirRest;
    assert (c.zFile + x + dirRest)[c.nFile..] == x + dirRest && (x + dirRest)[..9] == x;
  }

  lemma LocalRead(b: seq<byte>, e: Item, bodyRest: seq<byte>)
    requires Consistent(e, e.cds.iOffset)
    requires e.cds.iOffset <= |b| && b[e.cds.iOffset..] == LocalPart(e) + bodyRest
    ensures e.cds.iOffset + LFH_FIXED_SZ <= |b| && ReadLFH(b[e.cds.iOffset..]).Some?
    ensures var lfh := ReadLFH(b[e.cds.iOffset..]).value;
            lfh.nFile == e.cds.nFile && lfh.nExtra == 9
    ensures var d := e.cds.iOffset + LFH_FIXED_SZ + (e.cds.nFile + 9);
            d + |e.data| <= |b| && b[d..][..|e.data|] == e.data
  {
    hide ReadLFH, LFHBytes, TimeExtra;
    var c, x := e.cds, TimeExtra(e.mUnixTime);
    var head, s := c.zFile + x, b[c.iOffset..];
    LFHRoundTrip(c, head + (e.data + bodyRest));
    LFHPrefix(c, head, e.data + bodyRest);
    Texts.Assoc(LFHBytes(c, head), e.data, bodyRest);
    assert s == LFHBytes(c, head + (e.data + bodyRest));
    var d := c.iOffset + LFH_FIXED_SZ + (c.nFile + 9);
    assert b[d..] == s[LFH_FIXED_SZ..][|head|..] == e.data + bodyRest;
  }

  /** One directory record and the local part it points to, wherever they are. */
  lemma EntryRoundTrip(b: seq<byte>, iOff: nat, e: Item, dirRest: seq<byte>, bodyRest: seq<byte>)
    requires iOff <= |b| && b[iOff..] == DirectoryPart(e) + dirRest
    requires Consistent(e, e.cds.iOffset)
    requires e.cds.iOffset <= |b| && b[e.cds.iOffset..] == LocalPart(e) + bodyRest
    ensures GetEntry(b, iOff) == Ok(AsLoaded(e))
  {
    hide ReadCDS, ReadLFH, CDSBytes, LFHBytes, ScanExtra, TimeExtra, UpToNul, LocalPart, DirectoryPart;
    DirectoryRead(b, iOff, e, dirRest);
    LocalRead(b, e, bodyRest);
    UpToNulWhole(e.cds.zFile);
    ScanTimeExtra(e.mUnixTime);
  }

  lemma CDSPrefix(c: CDS, a: seq<byte>, rest: seq<byte>)
    ensures CDSBytes(c, a) + rest == CDSBytes(c, a + rest)
  {
    hide Put16, Put32;
  }

  lemma LFHPrefix(c: CDS, a: seq<byte>, rest: seq<byte>)
    ensures LFHBytes(c, a) + rest == LFHBytes(c, a + rest)
  {
    hide Put16, Put32;
  }

  // ----- parts of the archive

  lemma {:induction false} BodySplit(es: seq<Item>, i: nat)
    requires i < |es|
    ensures exists rest :: Body(es) == Body(es[..i]) + LocalPart(es[i]) + rest
    decreases |es|
  {
    hide LocalPart;
    var n := |es| - 1;
    if i == n {
      Joined(Body(es[..i]), LocalPart(es[i]), [], []);
    } else {
      BodySplit(es[..n], i);
      assert es[..n][..i] == es[..i];
      var rest :| Body(es[..n]) == Body(es[..i]) + LocalPart(es[i]) + rest;
      Joined(Body(es[..i]), LocalPart(es[i]), rest, LocalPart(es[n]));
    }
  }

  lemma Joined(a: seq<byte>, b: seq<byte>, c: seq<byte>, d: seq<byte>)
    ensures a + b + c + d == a + b + (c + d) && a + b + (c + d) == a + (b + (c + d)) && a + b == a + b + []
  {
  }

  /** The directory records from entry i on. */
  function DirectoryFrom(es: seq<Item>, i: nat): seq<byte>
    requires i <= |es|
    decreases |es| - i
  {
    if i == |es| then [] else DirectoryPart(es[i]) + DirectoryFrom(es, i + 1)
  }

  lemma {:induction false} DirectorySplit(es: seq<Item>, i: nat)
    requires i <= |es|
    ensures Directory(es) == Directory(es[..i]) + DirectoryFrom(es, i)
    decreases |es| - i
  {
    hide Directory, DirectoryPart;
    if i == |es| {
      assert es[..i] == es && Directory(es) + [] == Directory(es);
    } else {
      DirectorySplit(es, i + 1);
      DirectoryStep(es, i);
      DirectoryFromStep(es, i);
      hide *;
      Joined(Directory(es[..i]), DirectoryPart(es[i]), DirectoryFrom(es, i + 1), []);
    }
  }

  function AllLoaded(es: seq<Item>): (r: seq<Entry>)
    ensures |r| == |es|
    ensures forall i :: 0 <= i < |es| ==> r[i] == AsLoaded(es[i])
  {
    seq(|es|, i requires 0 <= i < |es| => AsLoaded(es[i]))
  }

  lemma DirectoryPartLength(e: Item)
    requires Consistent(e, e.cds.iOffset)
    ensures |DirectoryPart(e)| == Following(0, AsLoaded(e))
  {
    hide CDSBytes;
    CDSRoundTrip(e.cds, e.cds.zFile + TimeExtra(e.mUnixTime));
  }

  lemma {:induction false} EntriesRoundTrip(es: seq<Item>, i: nat, b: seq<byte>, tail: seq<byte>)
    requires WellFormed(es) && i <= |es| && b == Body(es) + Directory(es) + tail
    ensures var iOff := |Body(es)| + |Directory(es[..i])|;
            EntriesFrom(b, iOff, |es| - i) == Ok(AllLoaded(es)[i..])
    decreases |es| - i
  {
    hide GetEntry, DirectoryPart, LocalPart, Body, Directory, Consistent;
    var iOff := |Body(es)| + |Directory(es[..i])|;
    if i == |es| {
      assert AllLoaded(es)[i..] == [];
    } else {
      var e := es[i];
      EntryInArchive(es, i, b, tail);
      DirectoryStep(es, i);
      assert Consistent(e, |Body(es[..i])|);
      assert Following(iOff, AsLoaded(e)) == |Body(es)| + |Directory(es[..i + 1])| by {
        assert e.cds.iOffset == |Body(es[..i])| by { ConsistentOffset(e, |Body(es[..i])|); }
        DirectoryPartLength(e);
      }
      EntriesRoundTrip(es, i + 1, b, tail);
      assert AllLoaded(es)[i..] == [AsLoaded(e)] + AllLoaded(es)[i + 1..];
    }
  }

  lemma ConsistentOffset(e: Item, iOffset: nat)
    requires Consistent(e, iOffset)
    ensures e.cds.iOffset == iOffset
  {
  }

  lemma DirectoryStep(es: seq<Item>, i: nat)
    requires i < |es|
    ensures Directory(es[..i + 1]) == Directory(es[..i]) + DirectoryPart(es[i])
  {
    assert es[..i + 1][..i] == es[..i];
  }

  lemma EntryInArchive(es: seq<Item>, i: nat, b: seq<byte>, tail: seq<byte>)
    requires WellFormed(es) && i < |es| && b == Body(es) + Directory(es) + tail
    ensures GetEntry(b, |Body(es)| + |Directory(es[..i])|) == Ok(AsLoaded(es[i]))
  {
    hide GetEntry, DirectoryPart, LocalPart, Body, Directory;
    hide Consistent, DirectoryFrom;
    var e := es[i];
    assert Consistent(e, |Body(es[..i])|);
    ConsistentOffset(e, |Body(es[..i])|);
    BodySplit(es, i);
    var after :| Body(es) == Body(es[..i]) + LocalPart(e) + after;
    DirectorySplit(es, i);
    DirectoryFromStep(es, i);
    var dirRest, bodyRest := DirectoryFrom(es, i + 1) + tail, after + Directory(es) + tail;
    Places(Body(es), Directory(es[..i]), DirectoryPart(e), DirectoryFrom(es, i + 1), tail);
    Places([], Body(es[..i]), LocalPart(e), after, Directory(es) + tail);
    Joined(after, Directory(es), tail, []);
    Joined(Body(es), Directory(es), tail, []);
    EntryRoundTrip(b, |Body(es)| + |Directory(es[..i])|, e, dirRest, bodyRest);
  }

  lemma DirectoryFromStep(es: seq<Item>, i: nat)
    requires i < |es|
    ensures DirectoryFrom(es, i) == DirectoryPart(es[i]) + DirectoryFrom(es, i + 1)
  {
  }

  lemma Places(front: seq<byte>, a: seq<byte>, p: seq<byte>, rest: seq<byte>, tail: seq<byte>)
    ensures var b := front + (a + (p + rest)) + tail;
            |front| + |a| <= |b| && b[|front| + |a|..] == p + (rest + tail)
    ensures front + (a + p + rest) + tail == front + (a + (p + rest)) + tail
  {
  }

  /** Loading the archive of a list of entries gives back the list. */
  lemma ArchiveRoundTrip(es: seq<Item>)
    requires WellFormed(es) && |es| < 0x1_0000 && |Archive(es)| < 0x1_0000_0000
    ensures Loaded(Archive(es)) == Ok(AllLoaded(es))
  {
    hide EntriesFrom, EOCDBytes, Body, Directory, FindEOCD;
    var b := Archive(es);
    EOCDFound(Body(es) + Directory(es), EndRecord(es));
    EntriesRoundTrip(es, 0, b, EOCDBytes(EndRecord(es)));
    assert es[..0] == [] && Directory([]) == [] by { EmptyDirectory(); }
    assert AllLoaded(es)[0..] == AllLoaded(es);
  }

  /** The end record names the number of entries, the length of the directory and where it starts. */
  lemma ArchiveEnd(es: seq<Item>)
    requires |es| < 0x1_0000 && |Archive(es)| < 0x1_0000_0000
    ensures FindEOCD(Archive(es)) == Some(EOCD(0, 0, |es|, |es|, |Directory(es)|, |Body(es)|))
  {
    hide EOCDBytes, Body, Directory, FindEOCD;
    EOCDFound(Body(es) + Directory(es), EndRecord(es));
  }

  lemma EmptyDirectory()
    ensures Directory([]) == [] && Body([]) == []
  {
  }
}
