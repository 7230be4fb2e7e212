/** The index expert's hash table: chained buckets and a list of all entries, which act as a map. */
module IdxHash {
  import opened Bytes
  import opened Options
  import opened Texts

  const IDX_HASH_SIZE := 1023

  /** Hash values are unsigned 32-bit integers. */
  function HashFrom(ret: nat, z: Text): nat
    decreases |z|
  {
    if z == [] then ret else HashFrom((ret + ret * 8 + z[0]) % 0x1_0000_0000, z[1..])
  }

  function BucketOf(z: Text): (i: nat)
    ensures i < IDX_HASH_SIZE
  {
    HashFrom(0, z) % IDX_HASH_SIZE
  }

  /** The bytes as digits to the base 9. */
  function Polynomial(z: Text): nat {
    if z == [] then 0 else 9 * Polynomial(z[..|z| - 1]) + z[|z| - 1]
  }

  lemma {:induction false} HashMore(ret: nat, z: Text, c: byte)
    ensures HashFrom(ret, z + [c]) == (9 * HashFrom(ret, z) + c) % 0x1_0000_0000
    decreases |z|
  {
    if z == [] {
      assert z + [c] == [c] && [c][1..] == [];
    } else {
      assert (z + [c])[1..] == z[1..] + [c];
      HashMore((ret + ret * 8 + z[0]) % 0x1_0000_0000, z[1..], c);
    }
  }

  lemma CutBefore(p: nat, c: byte)
    ensures (9 * (p % 0x1_0000_0000) + c) % 0x1_0000_0000 == (9 * p + c) % 0x1_0000_0000
  {
    var m := 0x1_0000_0000;
    var q, r := p / m, p % m;
    assert p == m * q + r;
    assert 9 * p + c == (9 * q) * m + (9 * r + c);
  }

  lemma {:induction false} HashValue(z: Text)
    ensures HashFrom(0, z) == Polynomial(z) % 0x1_0000_0000
    decreases |z|
  {
    hide HashFrom;
    if z == [] {
      HashNothing();
    } else {
      var n := |z| - 1;
      HashValue(z[..n]);
      HashMore(0, z[..n], z[n]);
      assert z[..n] + [z[n]] == z;
      CutBefore(Polynomial(z[..n]), z[n]);
    }
  }

  lemma HashNothing()
    ensures HashFrom(0, []) == 0
  {
  }

  /** The bucket of a key: its polynomial, cut to 32 bits, modulo the size of the table. */
  lemma BucketExactly(z: Text)
    ensures BucketOf(z) == Polynomial(z) % 0x1_0000_0000 % 1023
  {
    hide HashFrom;
    HashValue(z);
  }

  /** idxHashString */
  method IdxHashString(z: Text) returns (i: nat)
    ensures i == BucketOf(z)
  {
    var ret: nat, k := 0, 0;
    assert z[0..] == z;
    while k < |z|
      invariant 0 <= k <= |z| && HashFrom(0, z) == HashFrom(ret, z[k..])
    {
      assert z[k..][1..] == z[k + 1..];
      ret := (ret + (ret * 8 + z[k])) % 0x1_0000_0000;
      k := k + 1;
    }
    i := ret % IDX_HASH_SIZE;
  }

  /** Its fields do not change while the entry is in the table. */
  class IdxHashEntry {
    const zKey: Text
    const zVal: Option<Text>
    const pHashNext: IdxHashEntry?
    const pNext: IdxHashEntry?
    ghost var freed: bool

    constructor (zKey: Text, zVal: Option<Text>, pHashNext: IdxHashEntry?, pNext: IdxHashEntry?)
      ensures this.zKey == zKey && this.zVal == zVal && this.pHashNext == pHashNext && this.pNext == pNext && !freed
    {
      this.zKey, this.zVal, this.pHashNext, this.pNext, freed := zKey, zVal, pHashNext, pNext, false;
    }

    /** sqlite3_free; memory may be freed once only. */
    ghost method Free()
      requires !freed
      modifies this`freed
      ensures freed
    {
      freed := true;
    }
  }

  /** The entries from p on, linked by pNext. */
  ghost predicate IsList(p: IdxHashEntry?, es: seq<IdxHashEntry>) {
    if es == [] then p == null else p == es[0] && IsList(es[0].pNext, es[1..])
  }

  /** The entries from p on, linked by pHashNext. */
  ghost predicate IsBucket(p: IdxHashEntry?, es: seq<IdxHashEntry>) {
    if es == [] then p == null else p == es[0] && IsBucket(es[0].pHashNext, es[1..])
  }

  ghost function InBucket(es: seq<IdxHashEntry>, i: nat): (r: seq<IdxHashEntry>)
    ensures forall e :: e in r ==> e in es && BucketOf(e.zKey) == i
    ensures forall e :: e in es && BucketOf(e.zKey) == i ==> e in r
  {
    if es == [] then [] else (if BucketOf(es[0].zKey) == i then [es[0]] else []) + InBucket(es[1..], i)
  }

  ghost predicate Distinct(es: seq<IdxHashEntry>) {
    forall i, j :: 0 <= i < j < |es| ==> es[i] != es[j]
  }

  lemma {:induction false} InBucketDistinct(es: seq<IdxHashEntry>, b: nat)
    requires DistinctKeys(es)
    ensures Distinct(InBucket(es, b))
  {
    if es == [] {
    } else {
      InBucketDistinct(es[1..], b);
      FirstKey(es);
      DistinctCons(es[0], InBucket(es[1..], b));
    }
  }

  lemma FirstKey(es: seq<IdxHashEntry>)
    requires DistinctKeys(es) && es != []
    ensures es[0] !in es[1..]
  {
    assert forall k :: 0 <= k < |es[1..]| ==> es[1..][k] == es[k + 1];
  }

  lemma DistinctCons(e: IdxHashEntry, t: seq<IdxHashEntry>)
    requires Distinct(t)
    ensures e !in t ==> Distinct([e] + t)
    ensures [] + t == t
  {
  }

  ghost predicate DistinctKeys(es: seq<IdxHashEntry>) {
    forall i, j :: 0 <= i < j < |es| ==> es[i].zKey != es[j].zKey
  }

  /** What a list of entries says, by key. */
  ghost function Contents(es: seq<IdxHashEntry>): map<Text, Option<Text>> {
    if es == [] then map[] else Contents(es[1..])[es[0].zKey := es[0].zVal]
  }

  lemma {:induction false} ContentsAt(es: seq<IdxHashEntry>, k: nat)
    requires DistinctKeys(es) && k < |es|
    ensures es[k].zKey in Contents(es) && Contents(es)[es[k].zKey] == es[k].zVal
  {
    if k == 0 {
    } else {
      ContentsAt(es[1..], k - 1);
    }
  }

  lemma ContentsOf(es: seq<IdxHashEntry>, e: IdxHashEntry)
    requires DistinctKeys(es) && e in es
    ensures e.zKey in Contents(es) && Contents(es)[e.zKey] == e.zVal
  {
    var k :| 0 <= k < |es| && es[k] == e;
    ContentsAt(es, k);
  }

  lemma {:induction false} NoKey(es: seq<IdxHashEntry>, key: Text)
    requires forall e :: e in es ==> e.zKey != key
    ensures key !in Contents(es)
  {
    if es == [] {
    } else {
      assert forall e :: e in es[1..] ==> e in es;
      NoKey(es[1..], key);
    }
  }

  lemma BucketMore(es: seq<IdxHashEntry>, e: IdxHashEntry, i: nat)
    ensures InBucket([e] + es, i) == if BucketOf(e.zKey) == i then [e] + InBucket(es, i) else InBucket(es, i)
    ensures IsBucket(e.pHashNext, InBucket(es, i)) ==> IsBucket(e, [e] + InBucket(es, i))
  {
    assert ([e] + es)[1..] == es;
    assert [] + InBucket(es, i) == InBucket(es, i);
    assert ([e] + InBucket(es, i))[1..] == InBucket(es, i);
  }

  class IdxHash {
    var pFirst: IdxHashEntry?
    const aHash: array<IdxHashEntry?>
    /** All entries, newest first. */
    ghost var entries: seq<IdxHashEntry>

    /** idxHashInit */
    constructor ()
      ensures Valid() && entries == [] && fresh(aHash)
    {
      pFirst := null;
      aHash := new IdxHashEntry?[IDX_HASH_SIZE](_ => null);
      entries := [];
    }

    /** The list has all entries, every bucket those with its hash, both in the order of insertion. */
    ghost predicate Valid()
      reads this, aHash, entries
    {
      && aHash.Length == IDX_HASH_SIZE
      && IsList(pFirst, entries) && DistinctKeys(entries)
      && (forall i :: 0 <= i < IDX_HASH_SIZE ==> IsBucket(aHash[i], InBucket(entries, i)))
      && (forall e :: e in entries ==> !e.freed)
    }

    /** idxHashFind */
    method IdxHashFind(zKey: Text) returns (p: IdxHashEntry?)
      requires Valid()
      ensures p == null <==> zKey !in Contents(entries)
      ensures p != null ==> p in entries && p.zKey == zKey && Contents(entries)[zKey] == p.zVal
    {
      var iHash := IdxHashString(zKey);
      ghost var bucket := InBucket(entries, iHash);
      ghost var rest := bucket;
      p := aHash[iHash];
      while p != null
        invariant IsBucket(p, rest) && forall e :: e in rest ==> e in bucket
        invariant forall e :: e in bucket && e.zKey == zKey ==> e in rest
        decreases |rest|
      {
        if p.zKey == zKey {
          ContentsOf(entries, p);
          return;
        }
        p := p.pHashNext;
        rest := rest[1..];
      }
      NoKey(entries, zKey);
    }

    /** idxHashSearch */
    method IdxHashSearch(zKey: Text) returns (zVal: Option<Text>)
      requires Valid()
      ensures zVal == if zKey in Contents(entries) then Contents(entries)[zKey] else None
    {
      var p := IdxHashFind(zKey);
      if p != null {
        return p.zVal;
      }
      return None;
    }

    /** idxHashAdd: whether the key was there already; a new entry goes to the front of both lists. */
    method IdxHashAdd(zKey: Text, zVal: Option<Text>) returns (found: bool)
      requires Valid()
      modifies this, aHash
      ensures Valid() && (found <==> zKey in old(Contents(entries)))
      ensures found ==> entries == old(entries)
      ensures !found ==> |entries| == |old(entries)| + 1 && entries[1..] == old(entries) && fresh(entries[0])
      ensures Contents(entries) == if found then old(Contents(entries)) else old(Contents(entries))[zKey := zVal]
    {
      hide InBucket, BucketOf;
      var p := IdxHashFind(zKey);
      if p != null {
        return true;
      }
      var iHash := IdxHashString(zKey);
      p := new IdxHashEntry(zKey, zVal, aHash[iHash], pFirst);
      aHash[iHash] := p;
      pFirst := p;
      KeyAbsent(entries, zKey);
      ghost var more := [p] + entries;
      assert more[1..] == entries;
      forall i | 0 <= i < IDX_HASH_SIZE
        ensures IsBucket(aHash[i], InBucket(more, i))
      {
        BucketMore(entries, p, i);
      }
      entries := more;
      found := false;
    }

    /** idxHashClear: every entry is freed, none of them twice. */
    method IdxHashClear()
      requires Valid()
      modifies this, aHash, entries
      ensures Valid() && entries == []
      ensures forall e :: e in old(entries) ==> e.freed
    {
      hide InBucket, IsBucket, BucketOf, IsList, DistinctKeys, Distinct;
      ghost var all := entries;
      var i := 0;
      while i < IDX_HASH_SIZE
        invariant 0 <= i <= IDX_HASH_SIZE && entries == all && aHash.Length == IDX_HASH_SIZE
        invariant forall j :: 0 <= j < IDX_HASH_SIZE ==> aHash[j] == old(aHash[j])
        invariant forall e :: e in all ==> (e.freed <==> BucketOf(e.zKey) < i)
      {
        InBucketDistinct(all, i);
        ghost var bucket := InBucket(all, i);
        assert forall k :: 0 <= k < |bucket| ==> bucket[k] in all;
        FreeBucket(aHash[i], bucket);
        i := i + 1;
      }
      pFirst := null;
      ClearBuckets();
      entries := [];
      NoEntries();
    }

    lemma NoEntries()
      ensures IsList(null, []) && DistinctKeys([]) && forall i :: 0 <= i < IDX_HASH_SIZE ==> IsBucket(null, InBucket([], i))
    {
    }

    method ClearBuckets()
      requires aHash.Length == IDX_HASH_SIZE
      modifies aHash
      ensures forall i :: 0 <= i < IDX_HASH_SIZE ==> aHash[i] == null
    {
      forall i | 0 <= i < IDX_HASH_SIZE {
        aHash[i] := null;
      }
    }
  }

  method FreeBucket(first: IdxHashEntry?, ghost es: seq<IdxHashEntry>)
    requires IsBucket(first, es) && (forall e :: e in es ==> !e.freed)
    requires Distinct(es)
    modifies es
    ensures forall e :: e in es ==> e.freed
  {
    var pEntry := first;
    ghost var k := 0;
    while pEntry != null
      invariant 0 <= k <= |es| && IsBucket(pEntry, es[k..])
      invariant forall j :: 0 <= j < k ==> es[j].freed
      invariant forall j :: k <= j < |es| ==> !es[j].freed
      decreases |es| - k
    {
      var pNext := pEntry.pHashNext;
      assert es[k..][0] == es[k] && es[k..][1..] == es[k + 1..];
      pEntry.Free();
      pEntry := pNext;
      k := k + 1;
    }
  }

  lemma {:induction false} KeyAbsent(es: seq<IdxHashEntry>, key: Text)
    requires key !in Contents(es)
    ensures forall e :: e in es ==> e.zKey != key
  {
    if es == [] {
    } else {
      KeyAbsent(es[1..], key);
      forall e | e in es
        ensures e.zKey != key
      {
        if e != es[0] {
          assert e in es[1..];
        }
      }
    }
  }
}
