/**
 * What Find selects, in terms of the records it returns; and what is found again of a record that
 * was stored.
 */
module PublisherQueries {
  import opened Options
  import opened PublisherDatabase

  /** Every field of the filter has its value for "any". */
  predicate AsksNothing(f: Filter, e: Enums) {
    && f.id == "" && f.category == e.allCategories && f.month == e.anyMonth && f.year <= 0
    && f.reconcileStamp == 0 && f.minDuration == 0 && f.excluded == e.filterAll != e.filterAllExceptExcluded
  }

  /** The record of a row of activity_info and of its publisher. */
  predicate IsRecord(r: PublisherInfo, a: Activity, p: Publisher) {
    && r.id == a.key.id == p.id
    && r.verified == p.verified && r.excluded == p.excluded && r.name == p.name && r.url == p.url
    && r.provider == p.provider && r.faviconUrl == p.favIcon
    && r.duration == a.amounts.duration && r.score == a.amounts.score
    && r.percent == a.amounts.percent && r.weight == a.amounts.weight
    && r.category == a.key.category && r.month == a.key.month && r.year == a.key.year
    && r.reconcileStamp == a.key.reconcileStamp
  }

  predicate RecordOf(r: PublisherInfo, a: Activity, ps: seq<Publisher>) {
    exists j :: 0 <= j < |ps| && IsRecord(r, a, ps[j])
  }

  /** A filter that asks for nothing gives one record for each row of activity_info, in their order. */
  lemma AllRecords(t: Tables, f: Filter, e: Enums)
    requires Valid(t) && AsksNothing(f, e)
    ensures var r := Selected(t.activity, t.publishers, f, e);
            |r| == |t.activity| && forall i :: 0 <= i < |r| ==> RecordOf(r[i], t.activity[i], t.publishers)
  {
    RecordsOf(t.activity, t.publishers, f, e);
  }

  lemma {:induction false} RecordsOf(rows: seq<Activity>, ps: seq<Publisher>, f: Filter, e: Enums)
    requires AsksNothing(f, e) && DistinctPublishers(ps)
    requires forall i :: 0 <= i < |rows| ==> HasPublisher(ps, rows[i].key.id)
    ensures var r := Selected(rows, ps, f, e);
            |r| == |rows| && forall i :: 0 <= i < |r| ==> RecordOf(r[i], rows[i], ps)
  {
    if rows == [] {
    } else {
      var a := rows[0];
      assert HasPublisher(ps, a.key.id);
      var j :| 0 <= j < |ps| && ps[j].id == a.key.id;
      JoinedOne(a, ps, j, f, e);
      assert IsRecord(InfoOf(a, ps[j]), a, ps[j]);
      hide Joined, RecordOf;
      RecordsOf(rows[1..], ps, f, e);
      RecordFound(InfoOf(a, ps[j]), a, ps, j);
    }
  }

  lemma RecordFound(r: PublisherInfo, a: Activity, ps: seq<Publisher>, j: nat)
    requires j < |ps| && IsRecord(r, a, ps[j])
    ensures RecordOf(r, a, ps)
  {
  }

  // ----- one more criterion

  function Those(list: seq<PublisherInfo>, keep: PublisherInfo -> bool): seq<PublisherInfo> {
    if list == [] then [] else (if keep(list[0]) then [list[0]] else []) + Those(list[1..], keep)
  }

  ghost predicate Narrows(f: Filter, g: Filter, e: Enums, keep: PublisherInfo -> bool) {
    forall a, p :: Where(g, e, a, p) && a.key.id == p.id <==> Where(f, e, a, p) && a.key.id == p.id && keep(InfoOf(a, p))
  }

  lemma {:induction false} ThoseAppend(a: seq<PublisherInfo>, b: seq<PublisherInfo>, keep: PublisherInfo -> bool)
    ensures Those(a + b, keep) == Those(a, keep) + Those(b, keep)
  {
    if a == [] {
      assert a + b == b;
    } else {
      ThoseAppend(a[1..], b, keep);
      assert (a + b)[1..] == a[1..] + b;
    }
  }

  lemma {:induction false} JoinedNarrowed(a: Activity, ps: seq<Publisher>, f: Filter, g: Filter, e: Enums,
                                          keep: PublisherInfo -> bool)
    requires Narrows(f, g, e, keep)
    ensures Joined(a, ps, g, e) == Those(Joined(a, ps, f, e), keep)
  {
    hide Where;
    if ps == [] {
    } else {
      JoinedNarrowed(a, ps[1..], f, g, e, keep);
      var p := ps[0];
      assert Where(g, e, a, p) && a.key.id == p.id <==> Where(f, e, a, p) && a.key.id == p.id && keep(InfoOf(a, p));
      var one := if p.id == a.key.id && Where(f, e, a, p) then [InfoOf(a, p)] else [];
      ThoseAppend(one, Joined(a, ps[1..], f, e), keep);
      assert one != [] ==> one[1..] == [];
    }
  }

  lemma {:induction false} Narrowed(rows: seq<Activity>, ps: seq<Publisher>, f: Filter, g: Filter, e: Enums,
                                    keep: PublisherInfo -> bool)
    requires Narrows(f, g, e, keep)
    ensures Selected(rows, ps, g, e) == Those(Selected(rows, ps, f, e), keep)
  {
    hide Joined, Narrows;
    if rows == [] {
    } else {
      Narrowed(rows[1..], ps, f, g, e, keep);
      JoinedNarrowed(rows[0], ps, f, g, e, keep);
      ThoseAppend(Joined(rows[0], ps, f, e), Selected(rows[1..], ps, f, e), keep);
    }
  }

  function HasId(v: string): PublisherInfo -> bool {
    (r: PublisherInfo) => r.id == v
  }

  function HasCategory(v: int): PublisherInfo -> bool {
    (r: PublisherInfo) => r.category == v
  }

  function HasMonth(v: int): PublisherInfo -> bool {
    (r: PublisherInfo) => r.month == v
  }

  function HasYear(v: int): PublisherInfo -> bool {
    (r: PublisherInfo) => r.year == v
  }

  function HasStamp(v: nat): PublisherInfo -> bool {
    (r: PublisherInfo) => r.reconcileStamp == v
  }

  function Lasts(v: nat): PublisherInfo -> bool {
    (r: PublisherInfo) => r.duration >= v
  }

  function HasExcluded(v: int, e: Enums): PublisherInfo -> bool {
    (r: PublisherInfo) => if v == e.filterAllExceptExcluded then r.excluded != v else r.excluded == v
  }

  /** An id keeps the records of this publisher. */
  lemma WithId(rows: seq<Activity>, ps: seq<Publisher>, f: Filter, e: Enums, v: string)
    requires f.id == "" && v != ""
    ensures Selected(rows, ps, f.(id := v), e) == Those(Selected(rows, ps, f, e), HasId(v))
  {
    Narrowed(rows, ps, f, f.(id := v), e, HasId(v));
  }

  lemma WithCategory(rows: seq<Activity>, ps: seq<Publisher>, f: Filter, e: Enums, v: int)
    requires f.category == e.allCategories && v != e.allCategories
    ensures Selected(rows, ps, f.(category := v), e) == Those(Selected(rows, ps, f, e), HasCategory(v))
  {
    Narrowed(rows, ps, f, f.(category := v), e, HasCategory(v));
  }

  lemma WithMonth(rows: seq<Activity>, ps: seq<Publisher>, f: Filter, e: Enums, v: int)
    requires f.month == e.anyMonth && v != e.anyMonth
    ensures Selected(rows, ps, f.(month := v), e) == Those(Selected(rows, ps, f, e), HasMonth(v))
  {
    Narrowed(rows, ps, f, f.(month := v), e, HasMonth(v));
  }

  lemma WithYear(rows: seq<Activity>, ps: seq<Publisher>, f: Filter, e: Enums, v: int)
    requires f.year <= 0 < v
    ensures Selected(rows, ps, f.(year := v), e) == Those(Selected(rows, ps, f, e), HasYear(v))
  {
    Narrowed(rows, ps, f, f.(year := v), e, HasYear(v));
  }

  lemma WithStamp(rows: seq<Activity>, ps: seq<Publisher>, f: Filter, e: Enums, v: nat)
    requires f.reconcileStamp == 0 < v
    ensures Selected(rows, ps, f.(reconcileStamp := v), e) == Those(Selected(rows, ps, f, e), HasStamp(v))
  {
    Narrowed(rows, ps, f, f.(reconcileStamp := v), e, HasStamp(v));
  }

  /** A least duration keeps the records that reach it. */
  lemma WithDuration(rows: seq<Activity>, ps: seq<Publisher>, f: Filter, e: Enums, v: nat)
    requires f.minDuration == 0 < v
    ensures Selected(rows, ps, f.(minDuration := v), e) == Those(Selected(rows, ps, f, e), Lasts(v))
  {
    Narrowed(rows, ps, f, f.(minDuration := v), e, Lasts(v));
  }

  /** One value of the exclusion keeps all records that have another one, any other value those that have it. */
  lemma WithExcluded(rows: seq<Activity>, ps: seq<Publisher>, f: Filter, e: Enums, v: int)
    requires f.excluded == e.filterAll != e.filterAllExceptExcluded && v != e.filterAll
    ensures Selected(rows, ps, f.(excluded := v), e)
         == Those(Selected(rows, ps, f, e), HasExcluded(v, e))
  {
    Narrowed(rows, ps, f, f.(excluded := v), e, HasExcluded(v, e));
  }

  /** A page starts behind start records, if start is greater than 1, and has limit records at most, if limit is positive. */
  lemma PageExactly(list: seq<PublisherInfo>, start: int, limit: int)
    ensures limit <= 0 ==> Page(list, start, limit) == list
    ensures limit > 0 ==>
            var page, from := Page(list, start, limit), if start <= 1 then 0 else start;
            && |page| == (if |list| <= from then 0 else if |list| - from <= limit then |list| - from else limit)
            && forall k :: 0 <= k < |page| ==> page[k] == list[from + k]
  {
  }

  // ----- what was stored is found

  /** The filter that asks for the period of a record. */
  function PeriodOf(info: PublisherInfo, e: Enums): Filter {
    Filter(info.id, info.category, info.month, info.year, info.reconcileStamp, 0, e.filterAll)
  }

  lemma {:induction false} StillLast(calls: seq<PublisherInfo>, info: PublisherInfo, later: seq<PublisherInfo>, cascade: bool)
    requires info.month != 0 && info.year != 0 && forall i :: 0 <= i < |later| ==> later[i].id != info.id
    ensures var all := calls + [info] + later;
            && LastStored(all, KeyOf(info), cascade) == Some(AmountsOf(info))
            && LastPublisher(all, info.id) == Some(PublisherOf(info))
    decreases |later|
  {
    var all := calls + [info] + later;
    if later == [] {
      assert all[|all| - 1] == info;
    } else {
      var n := |later| - 1;
      StillLast(calls, info, later[..n], cascade);
      assert all[..|all| - 1] == calls + [info] + later[..n] && all[|all| - 1] == later[n];
    }
  }

  /** A record with a period is found again as it was stored, whatever is stored later for other publishers. */
  lemma StoredIsFound(calls: seq<PublisherInfo>, info: PublisherInfo, later: seq<PublisherInfo>, cascade: bool, e: Enums)
    requires info.month != 0 && info.year > 0 && info.id != "" && info.reconcileStamp > 0
    requires info.category != e.allCategories && info.month != e.anyMonth && e.filterAll != e.filterAllExceptExcluded
    requires forall i :: 0 <= i < |later| ==> later[i].id != info.id
    ensures Lookup(AfterCalls(calls + [info] + later, cascade), PeriodOf(info, e), e) == LedgerOk(info)
  {
    hide Lookup, AfterCalls, LastStored, LastPublisher;
    LookupExactly(calls + [info] + later, cascade, PeriodOf(info, e), e);
    StillLast(calls, info, later, cascade);
  }

  /** Without a month or a year, nothing is stored about a period. */
  lemma NoPeriod(t: Tables, info: PublisherInfo)
    requires info.month == 0 || info.year == 0
    ensures Store(t, info, false).activity == t.activity
  {
  }
}
