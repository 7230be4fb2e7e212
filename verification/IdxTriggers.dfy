/**
 * The index expert's worklist of table writes: triggers that fire on a write bring in further
 * writes, until nothing new comes up.
 */
module IdxTriggers {
  import opened Options

  const SQLITE_DELETE := 9
  const SQLITE_INSERT := 18
  const SQLITE_UPDATE := 23

  type Operation = n: int | n == SQLITE_DELETE || n == SQLITE_INSERT || n == SQLITE_UPDATE witness SQLITE_INSERT

  /** One of the tables of the schema, by its place in the list of tables, and what is done to it. */
  datatype Write = Write(pTab: nat, eOp: Operation)

  /** A call of the authorizer. */
  datatype Event = Event(eOp: int, z3: string, zDb: string)

  /** What happens when a write is prepared with the triggers of its table. */
  datatype Outcome = Outcome(events: seq<Event>, ok: bool)

  function Lower(c: char): char {
    if 'A' <= c <= 'Z' then c - 'A' + 'a' else c
  }

  /** sqlite3_stricmp finds no difference. */
  predicate SameName(a: string, b: string) {
    |a| == |b| && forall i :: 0 <= i < |a| ==> Lower(a[i]) == Lower(b[i])
  }

  /** The first table with a name. */
  function FindTable(tables: seq<string>, z: string): (t: nat)
    ensures t <= |tables| && (t < |tables| ==> SameName(z, tables[t]))
    ensures forall i :: 0 <= i < t ==> !SameName(z, tables[i])
  {
    if tables == [] || SameName(z, tables[0]) then 0 else 1 + FindTable(tables[1..], z)
  }

  /** The write that an authorizer call is about. */
  function Recorded(tables: seq<string>, e: Event): (w: Option<Write>)
    ensures w.Some? ==> w.value.pTab < |tables|
  {
    if (e.eOp == SQLITE_INSERT || e.eOp == SQLITE_UPDATE || e.eOp == SQLITE_DELETE)
       && SameName(e.zDb, "main") && FindTable(tables, e.z3) < |tables|
    then Some(Write(FindTable(tables, e.z3), e.eOp))
    else None
  }

  /** Processing write v fires write w. */
  predicate Fires(tables: seq<string>, run: Write -> Outcome, v: Write, w: Write) {
    AmongRecorded(tables, run(v).events, w)
  }

  predicate AmongRecorded(tables: seq<string>, events: seq<Event>, w: Write) {
    exists i :: 0 <= i < |events| && Recorded(tables, events[i]) == Some(w)
  }

  lemma NothingRecorded(tables: seq<string>, events: seq<Event>)
    ensures forall w :: !AmongRecorded(tables, events[..0], w)
  {
  }

  lemma OneMoreRecorded(tables: seq<string>, events: seq<Event>, i: nat, w: Write)
    requires i < |events|
    ensures AmongRecorded(tables, events[..i + 1], w) <==>
            AmongRecorded(tables, events[..i], w) || Recorded(tables, events[i]) == Some(w)
  {
    hide Recorded;
    assert events[..i + 1] == events[..i] + [events[i]];
    if AmongRecorded(tables, events[..i], w) {
      var k :| 0 <= k < i && Recorded(tables, events[..i][k]) == Some(w);
      assert events[..i + 1][k] == events[..i][k];
    }
    assert events[..i + 1][i] == events[i];
  }

  ghost predicate Closed(tables: seq<string>, run: Write -> Outcome, s: set<Write>) {
    forall v, w :: v in s && Fires(tables, run, v, w) ==> w in s
  }

  /** s is the least closed set with the writes in init. */
  ghost predicate Least(tables: seq<string>, run: Write -> Outcome, init: seq<Write>, s: set<Write>) {
    && (forall w :: w in init ==> w in s)
    && Closed(tables, run, s)
    && forall c: set<Write> :: Closed(tables, run, c) && (forall w :: w in init ==> w in c) ==> s <= c
  }

  // ----- distinct writes

  predicate Distinct(ws: seq<Write>) {
    forall i, j :: 0 <= i < j < |ws| ==> ws[i] != ws[j]
  }

  /** The writes in ws have been processed, each once. */
  ghost predicate OnceEach(processed: seq<Write>, ws: seq<Write>) {
    Distinct(processed) && forall w :: w in processed <==> w in ws
  }

  function Universe(n: nat): (s: set<Write>)
    ensures forall w :: w in s <==> w.pTab < n
    ensures |s| == 3 * n
  {
    if n == 0 then {} else
    Universe(n - 1) + {Write(n - 1, SQLITE_DELETE)} + {Write(n - 1, SQLITE_INSERT)} + {Write(n - 1, SQLITE_UPDATE)}
  }

  lemma {:induction false} DistinctBound(ws: seq<Write>, s: set<Write>)
    requires Distinct(ws) && forall i :: 0 <= i < |ws| ==> ws[i] in s
    ensures |ws| <= |s|
  {
    if ws == [] {
    } else {
      forall i | 1 <= i < |ws|
        ensures ws[i] in s - {ws[0]}
      {
      }
      DistinctBound(ws[1..], s - {ws[0]});
    }
  }

  // ----- the list

  /** A recorded write. The fields of a list element do not change after it has been linked in. */
  class IdxWrite {
    const write: Write
    const pNext: IdxWrite?
    ghost const depth: nat

    constructor (write: Write, pNext: IdxWrite?)
      ensures this.write == write && this.pNext == pNext
      ensures depth == 1 + Depth(pNext)
    {
      this.write, this.pNext := write, pNext;
      depth := 1 + Depth(pNext);
    }
  }

  ghost function Depth(p: IdxWrite?): nat {
    if p == null then 0 else p.depth
  }

  ghost predicate Linked(p: IdxWrite?)
    decreases Depth(p)
  {
    p != null ==> p.depth == 1 + Depth(p.pNext) && Linked(p.pNext)
  }

  /** The writes in a list, newest first. */
  ghost function Writes(p: IdxWrite?): (ws: seq<Write>)
    requires Linked(p)
    ensures |ws| == Depth(p)
    decreases Depth(p)
  {
    if p == null then [] else [p.write] + Writes(p.pNext)
  }

  /** q is an element of p's list or its end. */
  ghost predicate IsTail(p: IdxWrite?, q: IdxWrite?)
    requires Linked(p)
    decreases Depth(p)
  {
    p == q || (p != null && IsTail(p.pNext, q))
  }

  lemma {:induction false} TailWrites(p: IdxWrite?, q: IdxWrite?)
    requires Linked(p) && IsTail(p, q)
    ensures Linked(q) && Depth(q) <= Depth(p) && Writes(p)[Depth(p) - Depth(q)..] == Writes(q)
    ensures Depth(q) == Depth(p) ==> p == q
    decreases Depth(p)
  {
    if p == q {
      assert Writes(p)[0..] == Writes(p);
    } else {
      TailWrites(p.pNext, q);
      var ws := Writes(p.pNext);
      assert Writes(p) == [p.write] + ws;
      assert ([p.write] + ws)[Depth(p) - Depth(q)..] == ws[Depth(p.pNext) - Depth(q)..];
    }
  }

  lemma TailStep(p: IdxWrite?, q: IdxWrite?)
    requires Linked(p) && IsTail(p, q) && p != q
    ensures p != null && Linked(p.pNext) && IsTail(p.pNext, q) && Depth(p) == 1 + Depth(p.pNext)
    ensures Writes(p) == [p.write] + Writes(p.pNext)
  {
  }

  lemma TailHead(p: IdxWrite?, q: IdxWrite)
    requires Linked(p) && IsTail(p, q)
    ensures Depth(q) > 0 && Depth(q) <= Depth(p) && Writes(p)[Depth(p) - Depth(q)] == q.write
  {
    TailWrites(p, q);
    assert Writes(q)[0] == Writes(p)[Depth(p) - Depth(q)..][0];
  }

  lemma TailSelf(p: IdxWrite?)
    requires Linked(p)
    ensures IsTail(p, p)
  {
  }

  lemma {:induction false} TailNext(p: IdxWrite?, q: IdxWrite?)
    requires Linked(p) && IsTail(p, q) && q != null
    ensures IsTail(p, q.pNext)
    decreases Depth(p)
  {
    if p == q {
    } else {
      TailNext(p.pNext, q);
    }
  }

  lemma {:induction false} TailTrans(p: IdxWrite?, q: IdxWrite?, r: IdxWrite?)
    requires Linked(p) && IsTail(p, q) && Linked(q) && IsTail(q, r)
    ensures IsTail(p, r)
    decreases Depth(p)
  {
    if p == q {
    } else {
      TailTrans(p.pNext, q, r);
    }
  }

  // ----- the worklist

  /** Every closed set with the writes in init has the writes in ws. */
  ghost predicate Needed(tables: seq<string>, run: Write -> Outcome, init: seq<Write>, ws: seq<Write>) {
    forall c: set<Write> :: Closed(tables, run, c) && (forall w :: w in init ==> w in c) ==> forall w :: w in ws ==> w in c
  }

  /** Whatever processed writes fire is in ws. */
  ghost predicate Covers(tables: seq<string>, run: Write -> Outcome, processed: seq<Write>, ws: seq<Write>) {
    forall v, w :: v in processed && Fires(tables, run, v, w) ==> w in ws
  }

  ghost predicate FromSchema(tables: seq<string>, ws: seq<Write>) {
    forall i :: 0 <= i < |ws| ==> ws[i].pTab < |tables|
  }

  class Sqlite3Expert {
    const pTable: seq<string>
    /** What SQLite does for a write, which the model does not look into. */
    const run: Write -> Outcome
    var pWrite: IdxWrite?
    /** The writes that idxProcessOneTrigger has been called for, in order. */
    ghost var processed: seq<Write>

    constructor (pTable: seq<string>, run: Write -> Outcome)
      ensures Valid() && pWrite == null && processed == [] && this.pTable == pTable && this.run == run
    {
      this.pTable, this.run, pWrite, processed := pTable, run, null, [];
    }

    ghost predicate Valid()
      reads this`pWrite
    {
      Linked(pWrite) && Distinct(Writes(pWrite)) && FromSchema(pTable, Writes(pWrite))
    }

    /** idxAuthCallback: a write that is not in the list is put in front. */
    method IdxAuthCallback(e: Event)
      requires Valid()
      modifies this`pWrite
      ensures Valid() && IsTail(pWrite, old(pWrite))
      ensures var w := Recorded(pTable, e);
              Writes(pWrite) == if w.Some? && w.value !in Writes(old(pWrite)) then [w.value] + Writes(old(pWrite))
                                else Writes(old(pWrite))
    {
      if e.eOp == SQLITE_INSERT || e.eOp == SQLITE_UPDATE || e.eOp == SQLITE_DELETE {
        if SameName(e.zDb, "main") {
          var pTab := SearchTable(e.z3);
          if pTab < |pTable| {
            var write := Write(pTab, e.eOp);
            var p := SearchWrite(write);
            if p == null {
              var node := new IdxWrite(write, pWrite);
              pWrite := node;
            }
          }
        }
      }
    }

    method SearchWrite(write: Write) returns (p: IdxWrite?)
      requires Valid()
      ensures p == null <==> write !in Writes(pWrite)
    {
      p := pWrite;
      while p != null
        invariant Linked(p) && IsTail(pWrite, p) && Depth(p) <= Depth(pWrite)
        invariant forall i :: 0 <= i < Depth(pWrite) - Depth(p) ==> Writes(pWrite)[i] != write
        decreases Depth(p)
      {
        TailWrites(pWrite, p);
        assert Writes(p)[0] == Writes(pWrite)[Depth(pWrite) - Depth(p)];
        if p.write == write {
          return;
        }
        TailNext(pWrite, p);
        TailWrites(pWrite, p.pNext);
        p := p.pNext;
      }
    }

    method SearchTable(z3: string) returns (t: nat)
      ensures t == FindTable(pTable, z3)
    {
      t := 0;
      while t < |pTable|
        invariant t <= |pTable| && FindTable(pTable, z3) == t + FindTable(pTable[t..], z3)
      {
        if SameName(z3, pTable[t]) {
          break;
        }
        assert pTable[t..][1..] == pTable[t + 1..];
        t := t + 1;
      }
    }

    /** idxProcessOneTrigger: preparing the write calls the authorizer for all that its triggers do. */
    method IdxProcessOneTrigger(w: Write) returns (ok: bool)
      requires Valid()
      modifies this
      ensures Valid() && IsTail(pWrite, old(pWrite)) && ok == run(w).ok
      ensures processed == old(processed) + [w]
      ensures forall v :: v in Writes(pWrite) <==> v in Writes(old(pWrite)) || Fires(pTable, run, w, v)
    {
      hide Recorded, AmongRecorded, Valid;
      var events := run(w).events;
      var i := 0;
      NothingRecorded(pTable, events);
      KeepsLinked();
      TailSelf(pWrite);
      while i < |events|
        invariant i <= |events| && Valid() && Linked(pWrite) && IsTail(pWrite, old(pWrite)) && processed == old(processed)
        invariant forall v :: v in Writes(pWrite) <==> v in Writes(old(pWrite)) || AmongRecorded(pTable, events[..i], v)
      {
        ghost var before := pWrite;
        IdxAuthCallback(events[i]);
        KeepsLinked();
        TailTrans(pWrite, before, old(pWrite));
        forall v
          ensures v in Writes(pWrite) <==> v in Writes(old(pWrite)) || AmongRecorded(pTable, events[..i + 1], v)
        {
          OneMoreRecorded(pTable, events, i, v);
        }
        i := i + 1;
      }
      assert events[..i] == events;
      processed := processed + [w];
      ok := run(w).ok;
    }

    lemma KeepsLinked()
      requires Valid()
      ensures Linked(pWrite)
    {
    }

    /** The list when the round that started at pFirst, in front of pEnd, has come to pIter. */
    ghost predicate InRound(pFirst: IdxWrite?, pEnd: IdxWrite?, pIter: IdxWrite?): (r: bool)
      reads this
      ensures r ==> Linked(pWrite)
    {
      && Valid() && IsTail(pWrite, pFirst) && Linked(pFirst) && IsTail(pFirst, pIter) && Linked(pIter)
      && IsTail(pIter, pEnd) && Linked(pEnd) && Depth(pEnd) <= Depth(pIter) <= Depth(pFirst)
    }

    /** What has been processed is covered, and the round has been done up to pIter. */
    ghost predicate Progress(pFirst: IdxWrite?, pEnd: IdxWrite?, pIter: IdxWrite?)
      reads this
      requires InRound(pFirst, pEnd, pIter)
    {
      && Covers(pTable, run, processed, Writes(pWrite))
      && Done(processed, Writes(pFirst), Depth(pFirst) - Depth(pIter), Depth(pFirst) - Depth(pEnd))
    }

    method ProcessNext(pFirst: IdxWrite?, pEnd: IdxWrite?, pIter: IdxWrite, ghost init: seq<Write>) returns (ok: bool)
      requires InRound(pFirst, pEnd, pIter) && pIter != pEnd
      requires Needed(pTable, run, init, Writes(pWrite)) && Progress(pFirst, pEnd, pIter)
      modifies this
      ensures InRound(pFirst, pEnd, pIter.pNext) && Needed(pTable, run, init, Writes(pWrite))
      ensures ok ==> Progress(pFirst, pEnd, pIter.pNext)
    {
      hide Needed, Covers, Distinct, Done, Fires, FromSchema, Linked, IsTail, Writes;
      NextFacts(pFirst, pEnd, pIter);
      ghost var all, k, end := Writes(pFirst), Depth(pFirst) - Depth(pIter), Depth(pFirst) - Depth(pEnd);
      ghost var before, top, earlier := Writes(pWrite), pWrite, processed;
      ok := IdxProcessOneTrigger(pIter.write);
      TailTrans(pWrite, top, pFirst);
      NeededMore(pTable, run, init, before, pIter.write, Writes(pWrite));
      CoversMore(pTable, run, earlier, before, pIter.write, Writes(pWrite));
      DoneMore(earlier, all, k, end);
    }

    lemma NextFacts(pFirst: IdxWrite?, pEnd: IdxWrite?, pIter: IdxWrite)
      requires InRound(pFirst, pEnd, pIter) && pIter != pEnd
      ensures IsTail(pFirst, pIter.pNext) && Linked(pIter.pNext) && IsTail(pIter.pNext, pEnd)
      ensures Depth(pEnd) <= Depth(pIter.pNext) && Depth(pIter) == 1 + Depth(pIter.pNext)
      ensures var all := Writes(pFirst);
              Distinct(all) && |all| == Depth(pFirst) && all[Depth(pFirst) - Depth(pIter)] == pIter.write
      ensures pIter.write in Writes(pWrite)
    {
      hide Distinct, Linked, IsTail, Writes, FromSchema;
      TailStep(pIter, pEnd);
      TailNext(pFirst, pIter);
      TailWrites(pIter.pNext, pEnd);
      TailInList(pWrite, pFirst, pIter);
    }

    /** One round: the writes from pFirst up to pEnd are processed. */
    method ProcessRound(pFirst: IdxWrite?, pEnd: IdxWrite?, ghost init: seq<Write>) returns (ok: bool)
      requires Valid() && pFirst == pWrite && IsTail(pFirst, pEnd) && Linked(pEnd)
      requires OnceEach(processed, Writes(pEnd))
      requires Needed(pTable, run, init, Writes(pWrite)) && Covers(pTable, run, processed, Writes(pWrite))
      modifies this
      ensures Valid() && IsTail(pWrite, pFirst)
      ensures Needed(pTable, run, init, Writes(pWrite))
      ensures ok ==> Covers(pTable, run, processed, Writes(pWrite))
      ensures ok ==> OnceEach(processed, Writes(pFirst))
    {
      hide *;
      RoundStart(pFirst, pEnd);
      ok := true;
      var pIter := pFirst;
      while ok && pIter != pEnd
        invariant InRound(pFirst, pEnd, pIter) && Needed(pTable, run, init, Writes(pWrite))
        invariant ok ==> Progress(pFirst, pEnd, pIter)
        decreases Depth(pIter)
      {
        RoundStep(pFirst, pEnd, pIter);
        ok := ProcessNext(pFirst, pEnd, pIter, init);
        pIter := pIter.pNext;
      }
      RoundEnd(pFirst, pEnd, pIter);
    }

    lemma RoundStart(pFirst: IdxWrite?, pEnd: IdxWrite?)
      requires Valid() && pFirst == pWrite && IsTail(pFirst, pEnd) && Linked(pEnd)
      requires OnceEach(processed, Writes(pEnd)) && Covers(pTable, run, processed, Writes(pWrite))
      ensures InRound(pFirst, pEnd, pFirst) && Progress(pFirst, pEnd, pFirst)
    {
      hide Covers, Done, Writes, OnceEach, Distinct;
      TailWrites(pFirst, pEnd);
      NothingDone(processed, Writes(pFirst), Depth(pFirst) - Depth(pEnd));
    }

    lemma RoundStep(pFirst: IdxWrite?, pEnd: IdxWrite?, pIter: IdxWrite?)
      requires InRound(pFirst, pEnd, pIter) && pIter != pEnd
      ensures pIter != null && Depth(pIter.pNext) < Depth(pIter)
    {
      TailStep(pIter, pEnd);
    }

    lemma RoundEnd(pFirst: IdxWrite?, pEnd: IdxWrite?, pIter: IdxWrite?)
      requires InRound(pFirst, pEnd, pIter)
      ensures Valid() && IsTail(pWrite, pFirst)
      ensures Progress(pFirst, pEnd, pIter) ==> Covers(pTable, run, processed, Writes(pWrite))
      ensures Progress(pFirst, pEnd, pIter) && pIter == pEnd ==> OnceEach(processed, Writes(pFirst))
    {
      hide Covers, Done, Writes, OnceEach, Distinct;
      AllDone(processed, Writes(pFirst), Depth(pFirst) - Depth(pIter), Depth(pFirst) - Depth(pEnd));
    }

    /** idxProcessTriggers */
    method IdxProcessTriggers() returns (ok: bool)
      requires Valid() && processed == []
      modifies this
      ensures Valid() && Needed(pTable, run, old(Writes(pWrite)), Writes(pWrite))
      ensures ok ==> Least(pTable, run, old(Writes(pWrite)), set w | w in Writes(pWrite))
      ensures ok ==> OnceEach(processed, Writes(pWrite))
    {
      ghost var init := Writes(pWrite);
      var pEnd: IdxWrite? := null;
      var pFirst := pWrite;
      ok := true;
      TailOfAll(pWrite);
      while ok && pFirst != pEnd
        invariant Valid() && pFirst == pWrite && Linked(pEnd) && IsTail(pFirst, pEnd)
        invariant Needed(pTable, run, init, Writes(pWrite))
        invariant forall w :: w in init ==> w in Writes(pWrite)
        invariant ok ==> Covers(pTable, run, processed, Writes(pWrite))
        invariant ok ==> OnceEach(processed, Writes(pEnd))
        decreases 3 * |pTable| - Depth(pEnd), ok
      {
        TailWrites(pFirst, pEnd);
        ok := ProcessRound(pFirst, pEnd, init);
        TailWrites(pWrite, pFirst);
        DistinctBound(Writes(pWrite), Universe(|pTable|));
        pEnd := pFirst;
        pFirst := pWrite;
      }
    }
  }

  lemma {:induction false} TailOfAll(p: IdxWrite?)
    requires Linked(p)
    ensures IsTail(p, null)
    decreases Depth(p)
  {
    if p == null {
    } else {
      TailOfAll(p.pNext);
    }
  }

  lemma TailInList(p: IdxWrite?, q: IdxWrite?, r: IdxWrite)
    requires Linked(p) && Distinct(Writes(p)) && IsTail(p, q) && Linked(q) && IsTail(q, r)
    ensures Distinct(Writes(q)) && Depth(r) <= Depth(q) && Depth(r) > 0
    ensures Writes(q)[Depth(q) - Depth(r)] == r.write && r.write in Writes(p)
  {
    hide Distinct, Linked, IsTail, Writes;
    TailHead(q, r);
    TailWrites(p, q);
    InTail(Writes(p), Writes(q), Depth(q) - Depth(r));
    DistinctTail(Writes(p), Writes(q));
  }

  /** Of the writes in all, the first k and those from number end on have been processed, once each. */
  ghost predicate Done(processed: seq<Write>, all: seq<Write>, k: nat, end: nat)
    requires k <= end <= |all|
  {
    Distinct(processed) && forall w :: w in processed <==> w in all[..k] || w in all[end..]
  }

  lemma NothingDone(processed: seq<Write>, all: seq<Write>, end: nat)
    requires end <= |all| && OnceEach(processed, all[end..])
    ensures Done(processed, all, 0, end)
  {
  }

  lemma DoneMore(processed: seq<Write>, all: seq<Write>, k: nat, end: nat)
    requires k < end <= |all| && Distinct(all)
    ensures Done(processed, all, k, end) ==> Done(processed + [all[k]], all, k + 1, end)
  {
    assert all[..k + 1] == all[..k] + [all[k]];
    assert all[k] !in all[..k] && all[k] !in all[end..];
  }

  lemma AllDone(processed: seq<Write>, all: seq<Write>, k: nat, end: nat)
    requires k <= end <= |all|
    ensures Done(processed, all, k, end) && k == end ==> OnceEach(processed, all)
  {
    assert all == all[..end] + all[end..];
  }

  lemma InTail(ws: seq<Write>, all: seq<Write>, k: nat)
    requires |all| <= |ws| && ws[|ws| - |all|..] == all && k < |all|
    ensures all[k] in ws
  {
    assert ws[|ws| - |all| + k] == all[k];
  }

  lemma DistinctTail(ws: seq<Write>, all: seq<Write>)
    requires |all| <= |ws| && ws[|ws| - |all|..] == all && Distinct(ws)
    ensures Distinct(all)
  {
    var d := |ws| - |all|;
    forall i, j | 0 <= i < j < |all|
      ensures all[i] != all[j]
    {
      assert all[i] == ws[d + i] && all[j] == ws[d + j];
    }
  }

  lemma CoversMore(tables: seq<string>, run: Write -> Outcome, processed: seq<Write>, ws: seq<Write>,
                   v: Write, more: seq<Write>)
    requires forall w :: w in more <==> w in ws || Fires(tables, run, v, w)
    ensures Covers(tables, run, processed, ws) ==> Covers(tables, run, processed + [v], more)
  {
    hide Fires;
  }

  lemma NeededMore(tables: seq<string>, run: Write -> Outcome, init: seq<Write>, ws: seq<Write>, v: Write, more: seq<Write>)
    requires Needed(tables, run, init, ws) && v in ws
    requires forall w :: w in more ==> w in ws || Fires(tables, run, v, w)
    ensures Needed(tables, run, init, more)
  {
    hide Fires;
  }
}
