/**
 * The publisher tables: inserting or updating what is known about a publisher in a period, finding
 * it again through a filter, and the lookup that must find one record at most.
 */
module PublisherDatabase {
  import opened Options
  import Texts

  /** What is told about a publisher: about itself, and about one period of activity. */
  datatype PublisherInfo = PublisherInfo(
    id: string,
    verified: bool, excluded: int, name: string, url: string, provider: string, faviconUrl: string,
    duration: nat, score: real, percent: nat, weight: real,
    category: int, month: int, year: int, reconcileStamp: nat)

  /** A row of publisher_info. */
  datatype Publisher = Publisher(
    id: string, verified: bool, excluded: int, name: string, url: string, provider: string, favIcon: string)

  /** The columns of activity_info by which a row is looked up. */
  datatype Key = Key(id: string, category: int, month: int, year: int, reconcileStamp: nat)

  datatype Amounts = Amounts(duration: nat, score: real, percent: nat, weight: real)

  /** A row of activity_info. */
  datatype Activity = Activity(key: Key, amounts: Amounts)

  function PublisherOf(info: PublisherInfo): Publisher {
    Publisher(info.id, info.verified, info.excluded, info.name, info.url, info.provider, info.faviconUrl)
  }

  function KeyOf(info: PublisherInfo): Key {
    Key(info.id, info.category, info.month, info.year, info.reconcileStamp)
  }

  function AmountsOf(info: PublisherInfo): Amounts {
    Amounts(info.duration, info.score, info.percent, info.weight)
  }

  // ----- the SQL statements

  /** DELETE FROM publisher_info WHERE publisher_id=id */
  function WithoutPublisher(ps: seq<Publisher>, id: string): (r: seq<Publisher>)
    ensures forall i :: 0 <= i < |r| ==> r[i] in ps && r[i].id != id
    ensures forall i :: 0 <= i < |ps| && ps[i].id != id ==> ps[i] in r
  {
    if ps == [] then [] else (if ps[0].id == id then [] else [ps[0]]) + WithoutPublisher(ps[1..], id)
  }

  predicate HasPublisher(ps: seq<Publisher>, id: string) {
    exists i :: 0 <= i < |ps| && ps[i].id == id
  }

  /** INSERT OR REPLACE INTO publisher_info */
  function ReplacePublisher(ps: seq<Publisher>, p: Publisher): seq<Publisher> {
    WithoutPublisher(ps, p.id) + [p]
  }

  /** ON DELETE CASCADE */
  function WithoutActivity(rows: seq<Activity>, id: string): (r: seq<Activity>)
    ensures forall i :: 0 <= i < |r| ==> r[i] in rows && r[i].key.id != id
    ensures forall i :: 0 <= i < |rows| && rows[i].key.id != id ==> rows[i] in r
  {
    if rows == [] then [] else (if rows[0].key.id == id then [] else [rows[0]]) + WithoutActivity(rows[1..], id)
  }

  /** SELECT publisher_id FROM activity_info WHERE ... gives a row. */
  predicate HasActivity(rows: seq<Activity>, key: Key) {
    exists i :: 0 <= i < |rows| && rows[i].key == key
  }

  /** UPDATE activity_info SET ... WHERE ... */
  function UpdateActivity(rows: seq<Activity>, key: Key, amounts: Amounts): (r: seq<Activity>)
    ensures |r| == |rows|
    ensures forall i :: 0 <= i < |rows| ==> r[i] == if rows[i].key == key then Activity(key, amounts) else rows[i]
  {
    seq(|rows|, i requires 0 <= i < |rows| => if rows[i].key == key then Activity(key, amounts) else rows[i])
  }

  // ----- what the tables mean

  predicate DistinctKeys(rows: seq<Activity>) {
    forall i, j :: 0 <= i < j < |rows| ==> rows[i].key != rows[j].key
  }

  predicate DistinctPublishers(ps: seq<Publisher>) {
    forall i, j :: 0 <= i < j < |ps| ==> ps[i].id != ps[j].id
  }

  /** activity_info as a map. */
  function Contents(rows: seq<Activity>): (m: map<Key, Amounts>)
    ensures forall k :: k in m ==> HasActivity(rows, k)
  {
    if rows == [] then map[] else
    var n := |rows| - 1;
    assert forall k :: HasActivity(rows[..n], k) ==> HasActivity(rows, k);
    Contents(rows[..n])[rows[n].key := rows[n].amounts]
  }

  lemma {:induction false} ContentsAt(rows: seq<Activity>, i: nat)
    requires DistinctKeys(rows) && i < |rows|
    ensures rows[i].key in Contents(rows) && Contents(rows)[rows[i].key] == rows[i].amounts
  {
    var n := |rows| - 1;
    if i == n {
    } else {
      ContentsAt(rows[..n], i);
    }
  }

  /** Two tables with distinct keys and the same rows mean the same. */
  lemma ContentsByRows(rows: seq<Activity>, m: map<Key, Amounts>)
    requires DistinctKeys(rows)
    requires forall i :: 0 <= i < |rows| ==> rows[i].key in m && m[rows[i].key] == rows[i].amounts
    requires forall k :: k in m ==> HasActivity(rows, k)
    ensures Contents(rows) == m
  {
    forall i | 0 <= i < |rows|
      ensures rows[i].key in Contents(rows) && Contents(rows)[rows[i].key] == rows[i].amounts
    {
      ContentsAt(rows, i);
    }
    forall k | k in m
      ensures k in Contents(rows) && Contents(rows)[k] == m[k]
    {
      var i :| 0 <= i < |rows| && rows[i].key == k;
    }
    forall k | k in Contents(rows)
      ensures k in m
    {
      var i :| 0 <= i < |rows| && rows[i].key == k;
    }
  }

  // ----- InsertOrUpdatePublisherInfo

  datatype Tables = Tables(publishers: seq<Publisher>, activity: seq<Activity>)

  predicate Valid(t: Tables) {
    && DistinctPublishers(t.publishers) && DistinctKeys(t.activity)
    && forall i :: 0 <= i < |t.activity| ==> HasPublisher(t.publishers, t.activity[i].key.id)
  }

  /** Without a month or a year, only the publisher itself is stored. */
  predicate HasPeriod(info: PublisherInfo) {
    info.month != 0 && info.year != 0
  }

  function Upsert(rows: seq<Activity>, key: Key, amounts: Amounts): seq<Activity> {
    if HasActivity(rows, key) then UpdateActivity(rows, key, amounts) else rows + [Activity(key, amounts)]
  }

  /** The tables after a call; cascade says whether SQLite enforces foreign keys. */
  function Store(t: Tables, info: PublisherInfo, cascade: bool): Tables {
    var rows := Kept(t, info.id, cascade);
    Tables(ReplacePublisher(t.publishers, PublisherOf(info)),
           if HasPeriod(info) then Upsert(rows, KeyOf(info), AmountsOf(info)) else rows)
  }

  /** The activity that is left when a publisher's row is replaced. */
  function Kept(t: Tables, id: string, cascade: bool): (rows: seq<Activity>)
    ensures forall i :: 0 <= i < |rows| ==> rows[i] in t.activity
  {
    if cascade && HasPublisher(t.publishers, id) then WithoutActivity(t.activity, id) else t.activity
  }

  lemma {:induction false} DistinctWithoutPublisher(ps: seq<Publisher>, id: string)
    requires DistinctPublishers(ps)
    ensures DistinctPublishers(WithoutPublisher(ps, id))
  {
    if ps == [] {
    } else {
      DistinctWithoutPublisher(ps[1..], id);
      var r := WithoutPublisher(ps[1..], id);
      forall j | 0 <= j < |r|
        ensures r[j].id != ps[0].id
      {
        var k :| 0 <= k < |ps[1..]| && ps[1..][k] == r[j];
        assert ps[k + 1] == r[j];
      }
    }
  }

  lemma {:induction false} DistinctWithoutActivity(rows: seq<Activity>, id: string)
    requires DistinctKeys(rows)
    ensures DistinctKeys(WithoutActivity(rows, id))
  {
    if rows == [] {
    } else {
      DistinctWithoutActivity(rows[1..], id);
      var r := WithoutActivity(rows[1..], id);
      forall j | 0 <= j < |r|
        ensures r[j].key != rows[0].key
      {
        var k :| 0 <= k < |rows[1..]| && rows[1..][k] == r[j];
        assert rows[k + 1] == r[j];
      }
    }
  }

  lemma ReplaceKeeps(ps: seq<Publisher>, p: Publisher)
    requires DistinctPublishers(ps)
    ensures DistinctPublishers(ReplacePublisher(ps, p))
    ensures forall id :: HasPublisher(ReplacePublisher(ps, p), id) <==> HasPublisher(ps, id) || id == p.id
  {
    DistinctWithoutPublisher(ps, p.id);
    var r := ReplacePublisher(ps, p);
    forall id
      ensures HasPublisher(r, id) <==> HasPublisher(ps, id) || id == p.id
    {
      if HasPublisher(r, id) && id != p.id {
        var i :| 0 <= i < |r| && r[i].id == id;
        assert r[i] in ps;
      }
      if HasPublisher(ps, id) && id != p.id {
        var i :| 0 <= i < |ps| && ps[i].id == id;
        assert ps[i] in r;
      }
      assert r[|r| - 1].id == p.id;
    }
  }

  lemma UpsertContents(rows: seq<Activity>, key: Key, amounts: Amounts)
    requires DistinctKeys(rows)
    ensures DistinctKeys(Upsert(rows, key, amounts))
    ensures Contents(Upsert(rows, key, amounts)) == Contents(rows)[key := amounts]
  {
    var r := Upsert(rows, key, amounts);
    if HasActivity(rows, key) {
      var m := Contents(rows)[key := amounts];
      forall i | 0 <= i < |r|
        ensures r[i].key in m && m[r[i].key] == r[i].amounts
      {
        ContentsAt(rows, i);
      }
      forall k | k in m
        ensures HasActivity(r, k)
      {
        var i :| 0 <= i < |rows| && rows[i].key == k;
        assert r[i].key == k;
      }
      ContentsByRows(r, m);
    } else {
      assert r[..|rows|] == rows;
    }
  }

  lemma WithoutContents(rows: seq<Activity>, id: string)
    requires DistinctKeys(rows)
    ensures Contents(WithoutActivity(rows, id)) == map k | k in Contents(rows) && k.id != id :: Contents(rows)[k]
  {
    DistinctWithoutActivity(rows, id);
    var r := WithoutActivity(rows, id);
    var m := map k | k in Contents(rows) && k.id != id :: Contents(rows)[k];
    forall i | 0 <= i < |r|
      ensures r[i].key in m && m[r[i].key] == r[i].amounts
    {
      var j :| 0 <= j < |rows| && rows[j] == r[i];
      ContentsAt(rows, j);
    }
    forall k | k in m
      ensures HasActivity(r, k)
    {
      var j :| 0 <= j < |rows| && rows[j].key == k;
      assert rows[j] in r;
      var i :| 0 <= i < |r| && r[i] == rows[j];
      assert r[i].key == k;
    }
    ContentsByRows(r, m);
  }

  function KeptMap(m: map<Key, Amounts>, cascade: bool, id: string): map<Key, Amounts> {
    if cascade then map k | k in m && k.id != id :: m[k] else m
  }

  /** What a call does to the activity table, as a map. */
  function StoredContents(m: map<Key, Amounts>, known: bool, info: PublisherInfo, cascade: bool): map<Key, Amounts> {
    var kept := KeptMap(m, cascade && known, info.id);
    if HasPeriod(info) then kept[KeyOf(info) := AmountsOf(info)] else kept
  }

  lemma KeptContents(t: Tables, id: string, cascade: bool)
    requires DistinctKeys(t.activity)
    ensures DistinctKeys(Kept(t, id, cascade))
    ensures Contents(Kept(t, id, cascade)) == KeptMap(Contents(t.activity), cascade && HasPublisher(t.publishers, id), id)
  {
    hide WithoutActivity, Contents, DistinctKeys;
    DistinctWithoutActivity(t.activity, id);
    WithoutContents(t.activity, id);
  }

  lemma UpsertRows(rows: seq<Activity>, key: Key, amounts: Amounts)
    ensures forall a :: a in Upsert(rows, key, amounts) ==> a in rows || a.key == key
  {
  }

  lemma StoreKeeps(t: Tables, info: PublisherInfo, cascade: bool)
    requires Valid(t)
    ensures Valid(Store(t, info, cascade))
    ensures Contents(Store(t, info, cascade).activity)
         == StoredContents(Contents(t.activity), HasPublisher(t.publishers, info.id), info, cascade)
  {
    hide Contents, Upsert, ReplacePublisher, HasPublisher, Kept, DistinctKeys, DistinctPublishers;
    var rows := Kept(t, info.id, cascade);
    KeptContents(t, info.id, cascade);
    UpsertContents(rows, KeyOf(info), AmountsOf(info));
    UpsertRows(rows, KeyOf(info), AmountsOf(info));
    ReplaceKeeps(t.publishers, PublisherOf(info));
    var t' := Store(t, info, cascade);
    forall i | 0 <= i < |t'.activity|
      ensures HasPublisher(t'.publishers, t'.activity[i].key.id)
    {
      assert t'.activity[i] in rows || t'.activity[i].key == KeyOf(info);
    }
  }

  // ----- runs of calls

  function AfterCalls(calls: seq<PublisherInfo>, cascade: bool): Tables {
    if calls == [] then Tables([], [])
    else Store(AfterCalls(calls[..|calls| - 1], cascade), calls[|calls| - 1], cascade)
  }

  /**
   * The amounts that were last stored under a key. With foreign keys enforced, any later call for
   * the same publisher has removed them.
   */
  function LastStored(calls: seq<PublisherInfo>, key: Key, cascade: bool): Option<Amounts> {
    if calls == [] then None else
    var info := calls[|calls| - 1];
    if HasPeriod(info) && KeyOf(info) == key then Some(AmountsOf(info))
    else if cascade && info.id == key.id then None
    else LastStored(calls[..|calls| - 1], key, cascade)
  }

  lemma {:induction false} CallsKeep(calls: seq<PublisherInfo>, cascade: bool)
    ensures Valid(AfterCalls(calls, cascade))
  {
    if calls == [] {
    } else {
      CallsKeep(calls[..|calls| - 1], cascade);
      hide Valid, Store;
      StoreKeeps(AfterCalls(calls[..|calls| - 1], cascade), calls[|calls| - 1], cascade);
    }
  }

  /** The activity table holds one row at most for each key, with what was last stored under it. */
  lemma {:induction false} LastWriteWins(calls: seq<PublisherInfo>, key: Key, cascade: bool)
    ensures var m := Contents(AfterCalls(calls, cascade).activity);
            LastStored(calls, key, cascade) == if key in m then Some(m[key]) else None
  {
    if calls == [] {
    } else {
      hide Store, Contents, Valid, HasPublisher;
      var t, info := AfterCalls(calls[..|calls| - 1], cascade), calls[|calls| - 1];
      LastWriteWins(calls[..|calls| - 1], key, cascade);
      CallsKeep(calls[..|calls| - 1], cascade);
      StoreKeeps(t, info, cascade);
      KeyHasPublisher(t, key);
    }
  }

  lemma KeyHasPublisher(t: Tables, key: Key)
    requires Valid(t)
    ensures key in Contents(t.activity) ==> HasPublisher(t.publishers, key.id)
  {
    hide Contents;
    if key !in Contents(t.activity) {
      return;
    }
    assert HasActivity(t.activity, key);
    var i :| 0 <= i < |t.activity| && t.activity[i].key == key;
  }

  lemma PublisherStep(ps: seq<Publisher>, i: nat, id: string)
    requires i < |ps|
    ensures !HasPublisher(ps[..0], id)
    ensures HasPublisher(ps[..i + 1], id) <==> HasPublisher(ps[..i], id) || ps[i].id == id
  {
    assert ps[..i + 1][i] == ps[i];
    if HasPublisher(ps[..i], id) {
      var k :| 0 <= k < i && ps[..i][k].id == id;
      assert ps[..i + 1][k] == ps[k];
    }
  }

  lemma PublishersLeftStart(ps: seq<Publisher>, id: string)
    ensures [] + WithoutPublisher(ps[0..], id) == WithoutPublisher(ps, id) && !HasPublisher(ps[..0], id)
  {
    assert ps[0..] == ps;
  }

  lemma PublishersLeftStep(left: seq<Publisher>, ps: seq<Publisher>, i: nat, id: string)
    requires i < |ps|
    ensures left + WithoutPublisher(ps[i..], id)
         == (if ps[i].id != id then left + [ps[i]] else left) + WithoutPublisher(ps[i + 1..], id)
  {
    assert ps[i..][1..] == ps[i + 1..];
    Texts.Assoc(left, if ps[i].id != id then [ps[i]] else [], WithoutPublisher(ps[i + 1..], id));
    assert left + [] == left;
  }

  lemma PublishersLeftEnd(left: seq<Publisher>, ps: seq<Publisher>, id: string)
    ensures left + WithoutPublisher(ps[|ps|..], id) == left
  {
  }

  lemma ActivityLeftStart(rows: seq<Activity>, id: string)
    ensures [] + WithoutActivity(rows[0..], id) == WithoutActivity(rows, id)
  {
    assert rows[0..] == rows;
  }

  lemma ActivityLeftStep(left: seq<Activity>, rows: seq<Activity>, i: nat, id: string)
    requires i < |rows|
    ensures left + WithoutActivity(rows[i..], id)
         == (if rows[i].key.id != id then left + [rows[i]] else left) + WithoutActivity(rows[i + 1..], id)
  {
    assert rows[i..][1..] == rows[i + 1..];
    Texts.Assoc(left, if rows[i].key.id != id then [rows[i]] else [], WithoutActivity(rows[i + 1..], id));
    assert left + [] == left;
  }

  lemma ActivityLeftEnd(left: seq<Activity>, rows: seq<Activity>, id: string)
    ensures left + WithoutActivity(rows[|rows|..], id) == left
  {
  }

  lemma ActivityStep(rows: seq<Activity>, a: Activity, key: Key)
    ensures HasActivity(rows + [a], key) <==> HasActivity(rows, key) || a.key == key
  {
    assert (rows + [a])[|rows|] == a;
    if HasActivity(rows, key) {
      var i :| 0 <= i < |rows| && rows[i].key == key;
      assert (rows + [a])[i] == rows[i];
    }
  }

  /**
   * Two periods of one publisher: with foreign keys enforced, storing the second one removes the
   * first one.
   */
  lemma CascadeForgets(a: PublisherInfo, b: PublisherInfo)
    requires HasPeriod(a) && HasPeriod(b) && a.id == b.id && KeyOf(a) != KeyOf(b)
    ensures KeyOf(a) !in Contents(AfterCalls([a, b], true).activity)
    ensures KeyOf(a) in Contents(AfterCalls([a, b], false).activity)
  {
    hide AfterCalls, Contents;
    LastWriteWins([a, b], KeyOf(a), true);
    LastWriteWins([a, b], KeyOf(a), false);
    assert [a, b][..1] == [a];
  }

  class PublisherInfoDatabase {
    const cascade: bool
    const enums: Enums
    var publishers: seq<Publisher>
    var activity: seq<Activity>

    constructor (cascade: bool, enums: Enums)
      ensures Contained() == Tables([], []) && this.cascade == cascade && this.enums == enums
    {
      this.cascade, this.enums, publishers, activity := cascade, enums, [], [];
    }

    function Contained(): Tables
      reads this
    {
      Tables(publishers, activity)
    }

    /** The deletions of ON DELETE CASCADE. */
    method DeleteActivity(id: string)
      modifies this`activity
      ensures activity == WithoutActivity(old(activity), id)
    {
      hide WithoutActivity;
      var rows, left := activity, [];
      ActivityLeftStart(rows, id);
      for i := 0 to |rows|
        invariant left + WithoutActivity(rows[i..], id) == WithoutActivity(rows, id)
      {
        ActivityLeftStep(left, rows, i, id);
        if rows[i].key.id != id {
          left := left + [rows[i]];
        }
      }
      ActivityLeftEnd(left, rows, id);
      activity := left;
    }

    /** INSERT OR REPLACE INTO publisher_info deletes a row with the same id first. */
    method ReplaceRow(p: Publisher)
      modifies this
      ensures publishers == ReplacePublisher(old(publishers), p)
      ensures activity == Kept(old(Contained()), p.id, cascade)
    {
      hide WithoutPublisher, HasPublisher;
      var rows, left, deleted := publishers, [], false;
      PublishersLeftStart(rows, p.id);
      for i := 0 to |rows|
        invariant left + WithoutPublisher(rows[i..], p.id) == WithoutPublisher(rows, p.id)
        invariant deleted <==> HasPublisher(rows[..i], p.id)
        invariant publishers == rows && activity == old(activity)
      {
        PublishersLeftStep(left, rows, i, p.id);
        PublisherStep(rows, i, p.id);
        if rows[i].id != p.id {
          left := left + [rows[i]];
        } else {
          deleted := true;
        }
      }
      assert rows[..|rows|] == rows;
      PublishersLeftEnd(left, rows, p.id);
      publishers := left + [p];
      if deleted && cascade {
        DeleteActivity(p.id);
      }
    }

    /** SELECT publisher_id FROM activity_info WHERE ..., with a callback that notes that there is a row. */
    method SelectActivity(key: Key) returns (rowExists: bool)
      ensures rowExists <==> HasActivity(activity, key)
    {
      rowExists := false;
      for i := 0 to |activity|
        invariant rowExists <==> HasActivity(activity[..i], key)
      {
        assert activity[..i + 1] == activity[..i] + [activity[i]];
        ActivityStep(activity[..i], activity[i], key);
        if activity[i].key == key {
          rowExists := true;
        }
      }
      assert activity[..|activity|] == activity;
    }

    /** UPDATE activity_info SET ... WHERE ... */
    method UpdateRows(key: Key, amounts: Amounts)
      modifies this`activity
      ensures activity == UpdateActivity(old(activity), key, amounts)
    {
      for i := 0 to |activity|
        invariant |activity| == |old(activity)|
        invariant forall k :: 0 <= k < i ==> activity[k] == UpdateActivity(old(activity), key, amounts)[k]
        invariant forall k :: i <= k < |activity| ==> activity[k] == old(activity)[k]
      {
        if activity[i].key == key {
          activity := activity[i := activity[i].(amounts := amounts)];
        }
      }
    }

    method InsertOrUpdatePublisherInfo(info: PublisherInfo)
      modifies this
      ensures Contained() == Store(old(Contained()), info, cascade)
    {
      hide ReplacePublisher, Kept, HasActivity, UpdateActivity;
      ReplaceRow(PublisherOf(info));
      if info.month == 0 || info.year == 0 {
        return;
      }
      var rowExists := SelectActivity(KeyOf(info));
      if rowExists {
        UpdateRows(KeyOf(info), AmountsOf(info));
        return;
      }
      activity := activity + [Activity(KeyOf(info), AmountsOf(info))];
    }

    /** Find, for a filter without an order: the join is read row by row, with LIMIT and OFFSET. */
    method Find(start: int, limit: int, filter: Filter) returns (list: seq<PublisherInfo>)
      ensures list == Page(Selected(activity, publishers, filter, enums), start, limit)
    {
      hide Page, Joined;
      ghost var all, total := [], Selected(activity, publishers, filter, enums);
      PageStart(start, limit);
      list := [];
      var nRow := 0;
      for i := 0 to |activity|
        invariant list == Page(all, start, limit) && nRow == |all|
        invariant total == all + Selected(activity[i..], publishers, filter, enums)
      {
        assert activity[i..][1..] == activity[i + 1..];
        ghost var more := Joined(activity[i], publishers, filter, enums);
        Texts.Assoc(all, more, Selected(activity[i + 1..], publishers, filter, enums));
        list, nRow := JoinRow(activity[i], start, limit, filter, list, nRow, all);
        all := all + more;
      }
      assert total == all + [] == all;
    }

    /** One row of activity_info with its rows of publisher_info. */
    method JoinRow(a: Activity, start: int, limit: int, filter: Filter, list0: seq<PublisherInfo>, nRow0: nat,
                   ghost all0: seq<PublisherInfo>) returns (list: seq<PublisherInfo>, nRow: nat)
      requires list0 == Page(all0, start, limit) && nRow0 == |all0|
      ensures list == Page(all0 + Joined(a, publishers, filter, enums), start, limit)
      ensures nRow == |all0 + Joined(a, publishers, filter, enums)|
    {
      hide Page, Where;
      ghost var all, total := all0, all0 + Joined(a, publishers, filter, enums);
      list, nRow := list0, nRow0;
      for j := 0 to |publishers|
        invariant list == Page(all, start, limit) && nRow == |all|
        invariant total == all + Joined(a, publishers[j..], filter, enums)
      {
        var p := publishers[j];
        assert publishers[j..][1..] == publishers[j + 1..];
        ghost var rest := Joined(a, publishers[j + 1..], filter, enums);
        if p.id == a.key.id && Where(filter, enums, a, p) {
          PageMore(all, InfoOf(a, p), start, limit);
          Texts.Assoc(all, [InfoOf(a, p)], rest);
          all := all + [InfoOf(a, p)];
          if limit <= 0 || ((start <= 1 || nRow >= start) && |list| < limit) {
            list := list + [InfoOf(a, p)];
          }
          nRow := nRow + 1;
        } else {
          assert [] + rest == rest;
        }
      }
      assert total == all + [] == all;
    }

    /** LoadPublisherInfo, with the result that is handed to the callback. */
    method LoadPublisherInfo(filter: Filter) returns (r: Loaded)
      ensures r == Lookup(Contained(), filter, enums)
    {
      var list := Find(0, 2, filter);
      r := OnPublisherInfoLoaded(list);
    }
  }

  // ----- Find

  /** Values of the ledger library that mean "any" in a filter. */
  datatype Enums = Enums(allCategories: int, anyMonth: int, filterAll: int, filterAllExceptExcluded: int)

  datatype Filter = Filter(
    id: string, category: int, month: int, year: int, reconcileStamp: nat, minDuration: nat, excluded: int)

  /** The WHERE clause for a row of activity_info and one of publisher_info. */
  predicate Where(f: Filter, e: Enums, a: Activity, p: Publisher) {
    && (f.id != "" ==> a.key.id == f.id)
    && (f.category != e.allCategories ==> a.key.category == f.category)
    && (f.month != e.anyMonth ==> a.key.month == f.month)
    && (f.year > 0 ==> a.key.year == f.year)
    && (f.reconcileStamp > 0 ==> a.key.reconcileStamp == f.reconcileStamp)
    && (f.minDuration > 0 ==> a.amounts.duration >= f.minDuration)
    && (f.excluded != e.filterAll && f.excluded != e.filterAllExceptExcluded ==> p.excluded == f.excluded)
    && (f.excluded == e.filterAllExceptExcluded ==> p.excluded != f.excluded)
  }

  function InfoOf(a: Activity, p: Publisher): PublisherInfo {
    PublisherInfo(a.key.id, p.verified, p.excluded, p.name, p.url, p.provider, p.favIcon,
                  a.amounts.duration, a.amounts.score, a.amounts.percent, a.amounts.weight,
                  a.key.category, a.key.month, a.key.year, a.key.reconcileStamp)
  }

  /** The rows of the inner join with one row of activity_info. */
  function Joined(a: Activity, ps: seq<Publisher>, f: Filter, e: Enums): seq<PublisherInfo> {
    if ps == [] then []
    else (if ps[0].id == a.key.id && Where(f, e, a, ps[0]) then [InfoOf(a, ps[0])] else []) + Joined(a, ps[1..], f, e)
  }

  function Selected(rows: seq<Activity>, ps: seq<Publisher>, f: Filter, e: Enums): seq<PublisherInfo> {
    if rows == [] then [] else Joined(rows[0], ps, f, e) + Selected(rows[1..], ps, f, e)
  }

  /** LIMIT and OFFSET; an offset of 1 is left out. */
  function Page(list: seq<PublisherInfo>, start: int, limit: int): seq<PublisherInfo> {
    if limit <= 0 then list else
    var from := if start <= 1 then 0 else if start < |list| then start else |list|;
    if limit < |list| - from then list[from..from + limit] else list[from..]
  }

  lemma PageStart(start: int, limit: int)
    ensures Page([], start, limit) == []
  {
  }

  /** One more row that is found is left out in front of the offset and behind the limit. */
  lemma PageMore(all: seq<PublisherInfo>, info: PublisherInfo, start: int, limit: int)
    ensures Page(all + [info], start, limit)
         == Page(all, start, limit)
          + if limit <= 0 || ((start <= 1 || |all| >= start) && |Page(all, start, limit)| < limit) then [info] else []
  {
    var from := if start <= 1 then 0 else start;
    if limit > 0 && |all| >= from {
      assert (all + [info])[from..] == all[from..] + [info];
    }
  }

  datatype Loaded = NotFound | TooManyResults | LedgerOk(info: PublisherInfo)

  function OnPublisherInfoLoaded(list: seq<PublisherInfo>): Loaded {
    if |list| == 0 then NotFound else if |list| > 1 then TooManyResults else LedgerOk(list[0])
  }

  /** The filter says which key it wants. */
  predicate FixesKey(f: Filter, e: Enums) {
    f.id != "" && f.category != e.allCategories && f.month != e.anyMonth && f.year > 0 && f.reconcileStamp > 0
  }

  function FilterKey(f: Filter): Key {
    Key(f.id, f.category, f.month, f.year, f.reconcileStamp)
  }

  lemma {:induction false} JoinedNone(a: Activity, ps: seq<Publisher>, f: Filter, e: Enums)
    requires forall i :: 0 <= i < |ps| ==> ps[i].id != a.key.id || !Where(f, e, a, ps[i])
    ensures Joined(a, ps, f, e) == []
  {
    if ps == [] {
    } else {
      JoinedNone(a, ps[1..], f, e);
    }
  }

  lemma {:induction false} JoinedOne(a: Activity, ps: seq<Publisher>, j: nat, f: Filter, e: Enums)
    requires DistinctPublishers(ps) && j < |ps| && ps[j].id == a.key.id
    ensures Joined(a, ps, f, e) == if Where(f, e, a, ps[j]) then [InfoOf(a, ps[j])] else []
  {
    if j == 0 {
      JoinedNone(a, ps[1..], f, e);
    } else {
      JoinedOne(a, ps[1..], j - 1, f, e);
      assert ps[0].id != ps[j].id;
    }
  }

  lemma {:induction false} SelectedNone(rows: seq<Activity>, ps: seq<Publisher>, f: Filter, e: Enums)
    requires FixesKey(f, e) && forall i :: 0 <= i < |rows| ==> rows[i].key != FilterKey(f)
    ensures Selected(rows, ps, f, e) == []
  {
    if rows == [] {
    } else {
      JoinedNone(rows[0], ps, f, e);
      SelectedNone(rows[1..], ps, f, e);
    }
  }

  lemma {:induction false} SelectedOne(rows: seq<Activity>, i: nat, ps: seq<Publisher>, f: Filter, e: Enums)
    requires FixesKey(f, e) && DistinctKeys(rows) && i < |rows| && rows[i].key == FilterKey(f)
    ensures Selected(rows, ps, f, e) == Joined(rows[i], ps, f, e)
  {
    if i == 0 {
      SelectedNone(rows[1..], ps, f, e);
    } else {
      assert rows[0].key != rows[i].key;
      JoinedNone(rows[0], ps, f, e);
      SelectedOne(rows[1..], i - 1, ps, f, e);
    }
  }

  function Lookup(t: Tables, f: Filter, e: Enums): Loaded {
    OnPublisherInfoLoaded(Page(Selected(t.activity, t.publishers, f, e), 0, 2))
  }

  /** There is a row with the key of the filter, and its publisher passes the rest of the filter. */
  predicate Findable(t: Tables, f: Filter, e: Enums) {
    exists i, j :: 0 <= i < |t.activity| && 0 <= j < |t.publishers| && t.activity[i].key == FilterKey(f)
                   && t.publishers[j].id == f.id && Where(f, e, t.activity[i], t.publishers[j])
  }

  lemma LookupAt(t: Tables, i: nat, j: nat, f: Filter, e: Enums)
    requires FixesKey(f, e) && Valid(t) && i < |t.activity| && t.activity[i].key == FilterKey(f)
    requires j < |t.publishers| && t.publishers[j].id == f.id
    ensures Lookup(t, f, e)
         == if Where(f, e, t.activity[i], t.publishers[j]) then LedgerOk(InfoOf(t.activity[i], t.publishers[j])) else NotFound
  {
    hide Selected, Joined, Where;
    SelectedOne(t.activity, i, t.publishers, f, e);
    JoinedOne(t.activity[i], t.publishers, j, f, e);
  }

  lemma LookupInTables(t: Tables, f: Filter, e: Enums)
    requires FixesKey(f, e) && Valid(t)
    ensures var r := Lookup(t, f, e);
            && !r.TooManyResults? && (r.LedgerOk? <==> Findable(t, f, e))
            && (r.LedgerOk? ==> KeyOf(r.info) == FilterKey(f) && FilterKey(f) in Contents(t.activity)
                                && Contents(t.activity)[FilterKey(f)] == AmountsOf(r.info))
  {
    hide Selected, Joined, Where, Contents;
    if HasActivity(t.activity, FilterKey(f)) {
      var i :| 0 <= i < |t.activity| && t.activity[i].key == FilterKey(f);
      var j :| 0 <= j < |t.publishers| && t.publishers[j].id == t.activity[i].key.id;
      ContentsAt(t.activity, i);
      LookupAt(t, i, j, f, e);
      OnlyOne(t, i, j, f, e);
    } else {
      SelectedNone(t.activity, t.publishers, f, e);
    }
  }

  lemma OnlyOne(t: Tables, i: nat, j: nat, f: Filter, e: Enums)
    requires Valid(t) && i < |t.activity| && t.activity[i].key == FilterKey(f)
    requires j < |t.publishers| && t.publishers[j].id == f.id
    ensures Findable(t, f, e) <==> Where(f, e, t.activity[i], t.publishers[j])
  {
    hide Where;
  }

  /**
   * After any calls, a filter that fixes the key finds what was last stored under it, when the
   * publisher passes the rest of the filter; it never finds too many records.
   */
  lemma LookupFixedKey(calls: seq<PublisherInfo>, cascade: bool, f: Filter, e: Enums)
    requires FixesKey(f, e)
    ensures var t := AfterCalls(calls, cascade);
            var r := Lookup(t, f, e);
            && !r.TooManyResults? && (r.LedgerOk? <==> Findable(t, f, e))
            && (r.LedgerOk? ==> KeyOf(r.info) == FilterKey(f)
                                && LastStored(calls, FilterKey(f), cascade) == Some(AmountsOf(r.info)))
  {
    hide AfterCalls, LastStored, Contents, Findable, Valid, Lookup;
    CallsKeep(calls, cascade);
    LastWriteWins(calls, FilterKey(f), cascade);
    LookupInTables(AfterCalls(calls, cascade), f, e);
  }

  /** What was last told about a publisher itself. */
  function LastPublisher(calls: seq<PublisherInfo>, id: string): Option<Publisher> {
    if calls == [] then None else
    var info := calls[|calls| - 1];
    if info.id == id then Some(PublisherOf(info)) else LastPublisher(calls[..|calls| - 1], id)
  }

  /** The publisher table has one row at most for each publisher, with what was last told about it. */
  lemma {:induction false} LastPublisherRow(calls: seq<PublisherInfo>, cascade: bool, j: nat)
    requires j < |AfterCalls(calls, cascade).publishers|
    ensures var p := AfterCalls(calls, cascade).publishers[j];
            LastPublisher(calls, p.id) == Some(p)
    decreases |calls|
  {
    if calls == [] {
    } else {
      var before, info := calls[..|calls| - 1], calls[|calls| - 1];
      var ps := AfterCalls(before, cascade).publishers;
      var left := WithoutPublisher(ps, info.id);
      assert AfterCalls(calls, cascade).publishers == left + [PublisherOf(info)];
      hide AfterCalls, WithoutPublisher;
      if j < |left| {
        var k :| 0 <= k < |ps| && ps[k] == left[j];
        LastPublisherRow(before, cascade, k);
      }
    }
  }

  /** The part of a filter that is not the key. */
  predicate Passes(f: Filter, e: Enums, amounts: Amounts, p: Publisher) {
    && (f.minDuration > 0 ==> amounts.duration >= f.minDuration)
    && (f.excluded != e.filterAll && f.excluded != e.filterAllExceptExcluded ==> p.excluded == f.excluded)
    && (f.excluded == e.filterAllExceptExcluded ==> p.excluded != f.excluded)
  }

  /** The answer to a filter that fixes the key, in terms of the calls. */
  function Answer(calls: seq<PublisherInfo>, cascade: bool, f: Filter, e: Enums): Loaded {
    match (LastStored(calls, FilterKey(f), cascade), LastPublisher(calls, f.id))
    case (Some(amounts), Some(p)) =>
      if Passes(f, e, amounts, p) then LedgerOk(InfoOf(Activity(FilterKey(f), amounts), p)) else NotFound
    case _ => NotFound
  }

  /**
   * After any calls, the lookup gives what was last told about the period and about its publisher,
   * if that passes the filter.
   */
  lemma LookupExactly(calls: seq<PublisherInfo>, cascade: bool, f: Filter, e: Enums)
    requires FixesKey(f, e)
    ensures Lookup(AfterCalls(calls, cascade), f, e) == Answer(calls, cascade, f, e)
  {
    hide AfterCalls, LastStored, LastPublisher, Contents, Selected, Joined, Page;
    var t := AfterCalls(calls, cascade);
    CallsKeep(calls, cascade);
    LastWriteWins(calls, FilterKey(f), cascade);
    if HasActivity(t.activity, FilterKey(f)) {
      var i :| 0 <= i < |t.activity| && t.activity[i].key == FilterKey(f);
      var j :| 0 <= j < |t.publishers| && t.publishers[j].id == t.activity[i].key.id;
      ContentsAt(t.activity, i);
      LastPublisherRow(calls, cascade, j);
      LookupAt(t, i, j, f, e);
    } else {
      SelectedNone(t.activity, t.publishers, f, e);
      EmptyPage();
    }
  }

  lemma EmptyPage()
    ensures OnPublisherInfoLoaded(Page([], 0, 2)) == NotFound
  {
  }

  /** A filter that asks for nothing but the key finds a record just when one was stored. */
  lemma FoundExactly(calls: seq<PublisherInfo>, cascade: bool, f: Filter, e: Enums)
    requires FixesKey(f, e) && f.minDuration == 0 && f.excluded == e.filterAll != e.filterAllExceptExcluded
    ensures Lookup(AfterCalls(calls, cascade), f, e).LedgerOk? <==> LastStored(calls, FilterKey(f), cascade).Some?
  {
    hide Lookup, AfterCalls;
    LookupExactly(calls, cascade, f, e);
    StoredHasPublisher(calls, FilterKey(f), cascade);
  }

  lemma {:induction false} StoredHasPublisher(calls: seq<PublisherInfo>, key: Key, cascade: bool)
    ensures LastStored(calls, key, cascade).Some? ==> LastPublisher(calls, key.id).Some?
  {
    if calls == [] {
    } else {
      StoredHasPublisher(calls[..|calls| - 1], key, cascade);
    }
  }

  /** In general, the lookup reports too many results just when at least two rows pass the filter. */
  lemma TooManyExactly(list: seq<PublisherInfo>)
    ensures OnPublisherInfoLoaded(Page(list, 0, 2)).TooManyResults? <==> |list| >= 2
    ensures |list| == 1 ==> OnPublisherInfoLoaded(Page(list, 0, 2)) == LedgerOk(list[0])
  {
  }
}
