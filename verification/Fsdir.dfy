/**
 * The fsdir table: a cursor with a stack of open directories that visits a directory tree in
 * preorder.
 */
module Fsdir {
  import opened Options
  import Texts

  /** What lstat, opendir and readdir say about a file; entries holds "." and ".." as well, in any place. */
  datatype Node = Node(mode: nat, readable: bool, entries: seq<Entry>)

  /** File names are not empty. */
  type Name = s: string | s != "" witness "a"

  /** An entry of a directory; there is no node when lstat fails for it. */
  datatype Entry = Entry(name: Name, node: Option<Node>)

  /** A path at which lstat is called, and what it says. */
  datatype Visit = Visit(path: string, node: Option<Node>)

  datatype Row = Row(path: string, mode: nat)

  predicate S_ISDIR(mode: nat) {
    mode / 0x1000 % 16 == 4
  }

  predicate IsDot(name: string) {
    name == "." || name == ".."
  }

  function Join(dir: string, name: string): string {
    dir + "/" + name
  }

  /** The files under a path in preorder. */
  function Visits(path: string, node: Option<Node>): (r: seq<Visit>)
    ensures r != [] && r[0] == Visit(path, node)
    decreases node
  {
    [Visit(path, node)] + if node.Some? && S_ISDIR(node.value.mode) then VisitsOf(path, node.value.entries) else []
  }

  function VisitsOf(dir: string, entries: seq<Entry>): seq<Visit>
    decreases entries
  {
    if entries == [] then [] else
    var first := if IsDot(entries[0].name) then [] else Visits(Join(dir, entries[0].name), entries[0].node);
    first + VisitsOf(dir, entries[1..])
  }

  /** The files as the system calls see them, by path. */
  type FileSystem = string -> Option<Node>

  /** The tree under a path is what the system calls find there. */
  predicate Found(fs: FileSystem, path: string, node: Option<Node>): (r: bool)
    ensures r ==> fs(path) == node
    decreases node
  {
    fs(path) == node
    && (node.Some? && S_ISDIR(node.value.mode) && node.value.readable ==> AllFound(fs, path, node.value.entries))
  }

  predicate AllFound(fs: FileSystem, dir: string, entries: seq<Entry>)
    decreases entries
  {
    entries != [] ==>
      && (IsDot(entries[0].name) || Found(fs, Join(dir, entries[0].name), entries[0].node))
      && AllFound(fs, dir, entries[1..])
  }

  // ----- which files are visited

  function Below(path: string, names: seq<string>): string
    decreases names
  {
    if names == [] then path else Below(path + "/" + names[0], names[1..])
  }

  /** Following the names from a file leads to target; only directories are entered, and neither "." nor ".." is a step. */
  ghost predicate Leads(node: Option<Node>, names: seq<string>, target: Option<Node>) {
    if names == [] then node == target
    else
      && node.Some? && node.value.mode / 0x1000 % 16 == 4 && names[0] != "." && names[0] != ".."
      && exists e :: e in node.value.entries && e.name == names[0] && Leads(e.node, names[1..], target)
  }

  ghost predicate LeadsTo(path: string, node: Option<Node>, names: seq<string>, v: Visit) {
    v.path == Below(path, names) && Leads(node, names, v.node)
  }

  /** The visited files are those that some list of names leads to: hidden files too, and each under its path. */
  lemma {:induction false} VisitedExactly(path: string, node: Option<Node>, v: Visit)
    ensures v in Visits(path, node) <==> exists names :: LeadsTo(path, node, names, v)
    decreases node, 1
  {
    if v == Visit(path, node) {
      assert LeadsTo(path, node, [], v);
    } else if node.Some? && S_ISDIR(node.value.mode) {
      VisitedBelow(path, node, node.value.entries, v);
    } else {
      forall names
        ensures !LeadsTo(path, node, names, v)
      {
      }
    }
  }

  ghost predicate ListsAny(dir: string, entries: seq<Entry>, v: Visit) {
    exists e, names ::
      e in entries && e.name != "." && e.name != ".." && LeadsTo(dir + "/" + e.name, e.node, names, v)
  }

  /** The same for the entries of a directory. */
  lemma {:induction false} VisitedEntries(dir: string, entries: seq<Entry>, v: Visit)
    ensures v in VisitsOf(dir, entries) <==> ListsAny(dir, entries, v)
    decreases entries, 0
  {
    if entries == [] {
    } else {
      var e := entries[0];
      VisitedEntries(dir, entries[1..], v);
      VisitedExactly(dir + "/" + e.name, e.node, v);
      ListsSplit(dir, entries, v);
    }
  }

  lemma ListsSplit(dir: string, entries: seq<Entry>, v: Visit)
    requires entries != []
    ensures var e := entries[0];
            ListsAny(dir, entries, v)
            <==> ListsAny(dir, entries[1..], v)
                 || (e.name != "." && e.name != ".." && exists names :: LeadsTo(dir + "/" + e.name, e.node, names, v))
  {
    hide LeadsTo;
    assert forall e :: e in entries <==> e == entries[0] || e in entries[1..];
  }

  lemma VisitedBelow(path: string, node: Option<Node>, entries: seq<Entry>, v: Visit)
    requires node.Some? && S_ISDIR(node.value.mode) && entries == node.value.entries && v != Visit(path, node)
    ensures v in VisitsOf(path, entries) <==> exists names :: LeadsTo(path, node, names, v)
    decreases node, 0
  {
    VisitedEntries(path, entries, v);
    if ListsAny(path, entries, v) {
      var e, names :|
        e in entries && e.name != "." && e.name != ".." && LeadsTo(path + "/" + e.name, e.node, names, v);
      var name: string := e.name;
      var all := [name] + names;
      assert all[1..] == names;
      assert LeadsTo(path, node, all, v);
    }
    if names :| LeadsTo(path, node, names, v) {
      assert names != [];
      var e :| e in entries && e.name == names[0] && Leads(e.node, names[1..], v.node);
      assert LeadsTo(path + "/" + e.name, e.node, names[1..], v);
    }
  }

  /** What an entry adds to the list. */
  function Listed(dir: string, e: Entry): seq<Visit> {
    if e.name == "." || e.name == ".." then [] else Visits(dir + "/" + e.name, e.node)
  }

  lemma FirstListed(dir: string, e: Entry, rest: seq<Entry>)
    ensures VisitsOf(dir, [e] + rest) == Listed(dir, e) + VisitsOf(dir, rest)
  {
    assert ([e] + rest)[1..] == rest;
  }

  /** The files of each entry stand behind those of the entries before it, and in front of those behind it. */
  lemma {:induction false} EntriesInOrder(dir: string, before: seq<Entry>, e: Entry, after: seq<Entry>)
    ensures VisitsOf(dir, before + [e] + after) == VisitsOf(dir, before) + (Listed(dir, e) + VisitsOf(dir, after))
  {
    var nothing: seq<Entry> := [];
    assert VisitsOf(dir, nothing) == [];
    hide VisitsOf, Listed;
    if before == [] {
      assert before + [e] + after == [e] + after;
      FirstListed(dir, e, after);
    } else {
      var first, tail := before[0], before[1..];
      EntriesInOrder(dir, tail, e, after);
      FirstListed(dir, first, tail + [e] + after);
      FirstListed(dir, first, tail);
      Behind(before, [e] + after);
      Texts.Assoc(before, [e], after);
      Texts.Assoc(tail, [e], after);
      Texts.Assoc(Listed(dir, first), VisitsOf(dir, tail), Listed(dir, e) + VisitsOf(dir, after));
    }
  }

  lemma Behind(a: seq<Entry>, b: seq<Entry>)
    requires a != []
    ensures a == [a[0]] + a[1..] && a + b == [a[0]] + (a[1..] + b)
  {
  }

  // ----- where a listing ends

  /** A file that lstat does not find. */
  predicate Missing(v: Visit) {
    v.node.None?
  }

  /** A directory that opendir does not open. */
  predicate Unreadable(v: Visit) {
    v.node.Some? && S_ISDIR(v.node.value.mode) && !v.node.value.readable
  }

  datatype Listing = Listing(rows: seq<Row>, failed: bool)

  function RowOf(v: Visit): Row
    requires !Missing(v)
  {
    Row(v.path, v.node.value.mode)
  }

  function After(rows: seq<Row>, l: Listing): Listing {
    Listing(rows + l.rows, l.failed)
  }

  /** The listing ends in front of the first file that is missing, or with the first directory that cannot be opened. */
  function Cut(visits: seq<Visit>): Listing {
    if visits == [] then Listing([], false)
    else if Missing(visits[0]) then Listing([], true)
    else if Unreadable(visits[0]) then Listing([RowOf(visits[0])], true)
    else After([RowOf(visits[0])], Cut(visits[1..]))
  }

  predicate Fine(visits: seq<Visit>) {
    forall i :: 0 <= i < |visits| ==> !Missing(visits[i]) && !Unreadable(visits[i])
  }

  /** How many files come before the first one that is missing or cannot be opened. */
  function FineCount(visits: seq<Visit>): (n: nat)
    ensures n <= |visits| && Fine(visits[..n])
    ensures n < |visits| ==> Missing(visits[n]) || Unreadable(visits[n])
  {
    if visits == [] || Missing(visits[0]) || Unreadable(visits[0]) then 0
    else
      var n := FineCount(visits[1..]);
      assert forall i :: 0 < i < n + 1 ==> visits[i] == visits[1..][..n][i - 1];
      n + 1
  }

  /** A listing is complete just when all files are found and all directories can be opened; else it is what comes before. */
  lemma {:induction false} CutExactly(visits: seq<Visit>)
    ensures var l, n := Cut(visits), FineCount(visits);
            && (l.failed <==> !Fine(visits))
            && (l.failed ==> n < |visits| && |l.rows| == if Unreadable(visits[n]) then n + 1 else n)
            && (!l.failed ==> |l.rows| == |visits|)
            && forall i :: 0 <= i < |l.rows| ==> !Missing(visits[i]) && l.rows[i] == RowOf(visits[i])
  {
    if visits == [] {
    } else if Missing(visits[0]) || Unreadable(visits[0]) {
    } else {
      CutExactly(visits[1..]);
      var l := Cut(visits[1..]);
      assert Fine(visits[1..]) ==> Fine(visits);
      assert Fine(visits) ==> Fine(visits[1..]);
      forall i | 0 <= i < |l.rows| + 1
        ensures !Missing(visits[i]) && Cut(visits).rows[i] == RowOf(visits[i])
      {
        assert i > 0 ==> visits[i] == visits[1..][i - 1];
      }
    }
  }

  /** DIR */
  class DirStream {
    var rest: seq<Entry>
    var isOpen: bool

    constructor (entries: seq<Entry>)
      ensures rest == entries && isOpen
    {
      rest, isOpen := entries, true;
    }

    method Readdir() returns (e: Option<Entry>)
      requires isOpen
      modifies this`rest
      ensures old(rest) == [] ==> e == None && rest == []
      ensures old(rest) != [] ==> e == Some(old(rest)[0]) && rest == old(rest)[1..]
    {
      if rest == [] {
        return None;
      }
      e := Some(rest[0]);
      rest := rest[1..];
    }

    /** A stream may be closed once only. */
    method Closedir()
      requires isOpen
      modifies this`isOpen
      ensures !isOpen
    {
      isOpen := false;
    }
  }

  datatype FsdirLevel = FsdirLevel(zDir: string, pDir: DirStream?)

  datatype Code = SQLITE_OK | SQLITE_ERROR

  /** An open directory: its path and what has not been read yet. */
  datatype Frame = Frame(zDir: string, rest: seq<Entry>)

  predicate ChildOf(path: string, dir: string) {
    |path| > |dir| + 1 && path[..|dir| + 1] == dir + "/" && !IsDot(path[|dir| + 1..])
  }

  /** Each directory of a stack lies in the one before. */
  predicate Ancestors(stack: seq<Frame>) {
    forall i :: 0 < i < |stack| ==> ChildOf(stack[i].zDir, stack[i - 1].zDir)
  }

  /** What is left in the directories of a stack, the last one first. */
  function Pending(stack: seq<Frame>): seq<Visit> {
    if stack == [] then []
    else VisitsOf(stack[|stack| - 1].zDir, stack[|stack| - 1].rest) + Pending(stack[..|stack| - 1])
  }

  predicate PendingFound(fs: FileSystem, stack: seq<Frame>) {
    forall i :: 0 <= i < |stack| ==> AllFound(fs, stack[i].zDir, stack[i].rest)
  }

  class FsdirCursor {
    const fs: FileSystem
    var iRowid: int
    var nBase: nat
    var aLvl: seq<FsdirLevel>
    var iLvl: int
    var zPath: Option<string>
    var stMode: nat
    /** Every stream that was ever opened for this cursor. */
    ghost var streams: set<DirStream>
    /** The levels in use. */
    ghost var stack: seq<Frame>

    constructor (fs: FileSystem)
      ensures Valid() && zPath == None && streams == {} && this.fs == fs
    {
      this.fs := fs;
      iRowid, nBase, aLvl, iLvl, zPath, stMode, streams, stack := 0, 0, [], -1, None, 0, {}, [];
    }

    ghost predicate LevelValid(i: nat)
      reads this`aLvl, this`stack, this`streams, streams
      requires i < |stack| && i < |aLvl|
    {
      var l := aLvl[i];
      l.pDir != null && l.pDir in streams && l.pDir.isOpen && stack[i] == Frame(l.zDir, l.pDir.rest)
    }

    /** The streams on the stack are exactly those that are open. */
    ghost predicate LevelsValid()
      reads this`aLvl, this`stack, this`streams, streams
    {
      && |stack| <= |aLvl|
      && (forall i :: 0 <= i < |stack| ==> LevelValid(i) && aLvl[i].zDir == stack[i].zDir)
      && (forall i, j :: 0 <= i < j < |stack| ==> aLvl[i].pDir != aLvl[j].pDir)
      && OpenListed(|stack|)
    }

    /** An open stream is in one of the first n levels. */
    ghost predicate OpenListed(n: nat)
      reads this`aLvl, this`streams, streams`isOpen
      requires n <= |aLvl|
    {
      forall s :: s in streams && s.isOpen ==> exists i :: 0 <= i < n && aLvl[i].pDir == s
    }

    ghost predicate Valid(): (r: bool)
      reads this`aLvl, this`iLvl, this`stack, this`streams, streams
      ensures r ==> iLvl + 1 == |stack| <= |aLvl|
      ensures r ==> forall i :: 0 <= i < |stack| ==> aLvl[i].zDir == stack[i].zDir
    {
      iLvl + 1 == |stack| && LevelsValid()
    }

    /** The cursor is valid, or it has just failed to open the directory of a new level. */
    ghost predicate Closable()
      reads this, streams
    {
      Valid() || (iLvl == |stack| < |aLvl| && aLvl[iLvl].pDir == null && LevelsValid())
    }

    /** The current file is there, and what is still to come is what the system calls will say. */
    ghost predicate Ready()
      reads this, streams
    {
      && Valid() && Ancestors(stack) && PendingFound(fs, stack)
      && (zPath.Some? ==>
          && fs(zPath.value).Some? && Found(fs, zPath.value, fs(zPath.value)) && stMode == fs(zPath.value).value.mode
          && (stack != [] ==> ChildOf(zPath.value, stack[|stack| - 1].zDir)))
    }

    /** The files from the current one on. */
    ghost function Remaining(): seq<Visit>
      reads this, streams
      requires Ready()
    {
      if zPath.None? then [] else Visits(zPath.value, fs(zPath.value)) + Pending(stack)
    }

    /** Going into the current directory puts it on the stack. */
    method Descend() returns (rc: Code)
      requires Valid() && zPath.Some?
      modifies this
      ensures iRowid == old(iRowid) && nBase == old(nBase) && zPath == None
      ensures rc == if CanOpen(old(zPath.value)) then SQLITE_OK else SQLITE_ERROR
      ensures rc == SQLITE_ERROR ==> Closable() && streams == old(streams)
      ensures rc == SQLITE_OK ==>
        && Valid() && streams >= old(streams) && fresh(streams - old(streams))
        && stack == old(stack) + [Frame(old(zPath.value), fs(old(zPath.value)).value.entries)]
    {
      hide LevelsValid;
      var iNew := iLvl + 1;
      Reserve(iNew);
      var zDir := zPath.value;
      zPath := None;
      var pDir := Opendir(zDir);
      if pDir == null {
        ClearLevel(iNew, zDir);
        return SQLITE_ERROR;
      }
      SetLevel(iNew, zDir, pDir);
      rc := SQLITE_OK;
    }

    method Reserve(iNew: int)
      requires Valid() && iNew == iLvl + 1
      modifies this`aLvl
      ensures Valid() && iNew < |aLvl|
    {
      if iNew >= |aLvl| {
        aLvl := aLvl + [FsdirLevel("", null)];
        assert forall i :: 0 <= i < |stack| ==> aLvl[i] == old(aLvl[i]) && old(LevelValid(i));
      }
    }

    method ClearLevel(iNew: int, zDir: string)
      requires Valid() && iNew == iLvl + 1 < |aLvl|
      modifies this`aLvl, this`iLvl
      ensures Closable()
    {
      aLvl := aLvl[iNew := FsdirLevel(zDir, null)];
      iLvl := iNew;
      assert forall i :: 0 <= i < |stack| ==> aLvl[i] == old(aLvl[i]) && old(LevelValid(i));
    }

    method SetLevel(iNew: int, zDir: string, pDir: DirStream)
      requires Valid() && iNew == iLvl + 1 < |aLvl| && pDir !in streams && pDir.isOpen
      modifies this`aLvl, this`iLvl, this`stack, this`streams
      ensures Valid() && streams == old(streams) + {pDir} && stack == old(stack) + [Frame(zDir, pDir.rest)]
    {
      iLvl := iNew;
      aLvl := aLvl[iNew := FsdirLevel(zDir, pDir)];
      streams := streams + {pDir};
      stack := stack + [Frame(zDir, pDir.rest)];
      assert LevelValid(iNew);
      assert forall i :: 0 <= i < iNew ==> aLvl[i] == old(aLvl[i]) && stack[i] == old(stack[i]) && old(LevelValid(i));
    }

    predicate CanOpen(zDir: string) {
      fs(zDir).Some? && S_ISDIR(fs(zDir).value.mode) && fs(zDir).value.readable
    }

    method Opendir(zDir: string) returns (pDir: DirStream?)
      ensures pDir == null <==> !CanOpen(zDir)
      ensures pDir != null ==> fresh(pDir) && pDir.isOpen && pDir.rest == fs(zDir).value.entries
    {
      if !CanOpen(zDir) {
        return null;
      }
      pDir := new DirStream(fs(zDir).value.entries);
    }

    /** Reads one entry of the topmost directory. */
    method ReadTop() returns (e: Option<Entry>)
      requires Valid() && stack != []
      modifies this`stack, streams
      ensures Valid() && |stack| == old(|stack|)
      ensures var top := old(stack[|stack| - 1]);
              && stack == AfterRead(old(stack))
              && e == if top.rest == [] then None else Some(top.rest[0])
    {
      hide OpenListed;
      assert LevelValid(iLvl);
      var pDir := aLvl[iLvl].pDir;
      e := pDir.Readdir();
      stack := stack[iLvl := Frame(aLvl[iLvl].zDir, pDir.rest)];
      assert forall i :: 0 <= i < iLvl ==> old(LevelValid(i)) && aLvl[i].pDir != aLvl[iLvl].pDir;
    }

    /** Closes the topmost directory. */
    method CloseTop()
      requires Valid() && stack != []
      modifies this`aLvl, this`iLvl, this`stack, streams
      ensures Valid() && stack == old(stack)[..|old(stack)| - 1]
    {
      assert LevelValid(iLvl);
      aLvl[iLvl].pDir.Closedir();
      ghost var n := iLvl;
      aLvl := aLvl[iLvl := FsdirLevel("", null)];
      iLvl := iLvl - 1;
      stack := stack[..|stack| - 1];
      assert forall i :: 0 <= i < n ==> old(LevelValid(i)) && aLvl[i] == old(aLvl[i]) && aLvl[i].pDir != old(aLvl[n].pDir);
      forall s | s in streams && s.isOpen
        ensures exists i :: 0 <= i < n && aLvl[i].pDir == s
      {
        var i :| 0 <= i <= n && old(aLvl[i].pDir) == s;
        assert i < n && aLvl[i].pDir == s;
      }
    }

    method FileLinkStat(path: string) returns (ok: bool)
      modifies this`stMode
      ensures ok <==> fs(path).Some?
      ensures ok ==> stMode == fs(path).value.mode
    {
      ok := fs(path).Some?;
      if ok {
        stMode := fs(path).value.mode;
      }
    }

    /** The loop of fsdirNext: the next entry on the stack becomes the current file. */
    method Advance() returns (rc: Code)
      requires Valid() && Ancestors(stack) && PendingFound(fs, stack)
      modifies this`aLvl, this`iLvl, this`stack, this`zPath, this`stMode, streams
      ensures rc == SQLITE_ERROR <==> Fails(old(Pending(stack)))
      ensures rc == SQLITE_ERROR ==> Closable()
      ensures rc == SQLITE_OK ==> Ready() && Remaining() == old(Pending(stack)) && (zPath == None ==> stack == [])
    {
      hide Visits, VisitsOf, Found, AllFound, Ancestors, Pending, PendingFound, Valid, IsDot, ChildOf;
      while iLvl >= 0
        invariant Valid() && Ancestors(stack) && PendingFound(fs, stack)
        invariant Pending(stack) == old(Pending(stack))
        decreases Unread(stack)
      {
        ghost var before := stack;
        var e := ReadTop();
        StackRead(fs, before);
        if e.Some? {
          if IsDot(e.value.name) {
            continue;
          }
          zPath := Some(Join(aLvl[iLvl].zDir, e.value.name));
          var ok := FileLinkStat(zPath.value);
          if !ok {
            return SQLITE_ERROR;
          }
          return SQLITE_OK;
        }
        ghost var read := stack;
        CloseTop();
        StackPop(fs, read);
      }
      NothingPending(stack);
      zPath := None;
      rc := SQLITE_OK;
    }

    /** xNext; the cursor is not at the end. It fails at a directory that cannot be opened or in front of a missing file. */
    method FsdirNext() returns (rc: Code)
      requires Ready() && zPath.Some?
      modifies this, streams
      ensures rc == SQLITE_ERROR <==> Unreadable(old(Remaining()[0])) || Fails(old(Remaining()[1..]))
      ensures rc == SQLITE_ERROR ==> Closable()
      ensures rc == SQLITE_OK ==> Ready() && Remaining() == old(Remaining()[1..]) && (zPath == None ==> stack == [])
      ensures nBase == old(nBase) && iRowid == old(iRowid) + 1
      ensures streams >= old(streams) && fresh(streams - old(streams))
    {
      hide VisitsOf, Found, AllFound, Ancestors, Pending, PendingFound, Valid, ChildOf, Closable;
      iRowid := iRowid + 1;
      ghost var path, node := zPath.value, fs(zPath.value).value;
      FoundEntries(fs, path, Some(node));
      assert old(Remaining()[1..])
          == if S_ISDIR(node.mode) then VisitsOf(path, node.entries) + Pending(stack) else Pending(stack);
      if S_ISDIR(stMode) {
        StackPush(fs, stack, Frame(path, node.entries));
        rc := Descend();
        if rc != SQLITE_OK {
          return;
        }
      }
      rc := Advance();
    }

    lemma CurrentRow()
      requires Ready() && zPath.Some?
      ensures Remaining() != [] && !Missing(Remaining()[0])
      ensures Remaining()[0].path == zPath.value && RowOf(Remaining()[0]) == Row(zPath.value, stMode)
    {
    }

    lemma NothingRemains()
      requires Ready() && zPath == None
      ensures Remaining() == [] && Closable()
    {
    }

    lemma AllClosed()
      requires Ready() && stack == []
      ensures forall s :: s in streams ==> !s.isOpen
    {
    }

    predicate FsdirEof(): (r: bool)
      reads this
      ensures r <==> zPath == None
    {
      zPath == None
    }

    /** The name column. */
    function Name(): (name: string)
      reads this
      requires zPath.Some? && nBase <= |zPath.value|
      ensures name == zPath.value[nBase..]
    {
      zPath.value[nBase..]
    }

    method FsdirResetCursor()
      requires Closable()
      modifies this, streams
      ensures Valid() && stack == [] && zPath == None && nBase == 0 && iRowid == 1 && streams == old(streams)
      ensures forall s :: s in streams ==> !s.isOpen
    {
      var i := 0;
      while i <= iLvl
        invariant 0 <= i && iLvl == old(iLvl) && aLvl == old(aLvl) && stack == old(stack) && streams == old(streams)
        invariant |stack| - 1 <= iLvl <= |stack| && iLvl < |aLvl|
        invariant iLvl == |stack| ==> aLvl[iLvl].pDir == null
        invariant forall j :: 0 <= j < |stack| ==> aLvl[j].pDir != null && aLvl[j].pDir in streams
        invariant forall j :: i <= j < |stack| ==> aLvl[j].pDir.isOpen
        invariant forall j :: 0 <= j < i && j < |stack| ==> !aLvl[j].pDir.isOpen
        invariant forall s :: s in streams && s.isOpen ==> old(s.isOpen)
      {
        if i < |stack| {
          assert old(LevelValid(i));
        }
        if aLvl[i].pDir != null {
          aLvl[i].pDir.Closedir();
        }
        i := i + 1;
      }
      aLvl, zPath, nBase, iLvl, iRowid := [], None, 0, -1, 1;
      stack := [];
    }

    /** The path that xFilter starts from. */
    static function StartPath(zDir: string, zBase: Option<string>): string {
      if zBase.Some? then Join(zBase.value, zDir) else zDir
    }

    /** xFilter with its arguments, which may be NULL. */
    method FsdirFilter(argv: seq<Option<string>>) returns (rc: Code)
      requires Closable() && |argv| <= 2
      modifies this, streams
      ensures Valid() && stack == [] && streams == old(streams)
      ensures rc == SQLITE_OK <==>
        && argv != [] && argv[0].Some?
        && fs(StartPath(argv[0].value, if |argv| == 2 then argv[1] else None)).Some?
      ensures rc == SQLITE_OK ==>
        var zBase := if |argv| == 2 then argv[1] else None;
        && zPath == Some(StartPath(argv[0].value, zBase)) && stMode == fs(zPath.value).value.mode && iRowid == 1
        && nBase == if zBase.Some? then |zBase.value| + 1 else 0
    {
      FsdirResetCursor();
      if |argv| == 0 || argv[0].None? {
        return SQLITE_ERROR;
      }
      var zBase := None;
      if |argv| == 2 {
        zBase := argv[1];
      }
      if zBase.Some? {
        nBase := |zBase.value| + 1;
        zPath := Some(Join(zBase.value, argv[0].value));
      } else {
        zPath := argv[0];
      }
      var ok := FileLinkStat(zPath.value);
      rc := if ok then SQLITE_OK else SQLITE_ERROR;
    }
  }

  /** The next file is missing. */
  predicate Fails(visits: seq<Visit>) {
    visits != [] && Missing(visits[0])
  }

  lemma FoundEntries(fs: FileSystem, path: string, node: Option<Node>)
    requires Found(fs, path, node)
    ensures node.Some? && S_ISDIR(node.value.mode) && node.value.readable ==> AllFound(fs, path, node.value.entries)
  {
  }

  lemma NothingPending(stack: seq<Frame>)
    requires stack == []
    ensures Pending(stack) == []
  {
  }

  /** How much is left to do for the loop of fsdirNext. */
  function Unread(stack: seq<Frame>): nat {
    if stack == [] then 0 else 1 + |stack[|stack| - 1].rest| + Unread(stack[..|stack| - 1])
  }

  lemma StackPush(fs: FileSystem, stack: seq<Frame>, top: Frame)
    ensures Pending(stack + [top]) == VisitsOf(top.zDir, top.rest) + Pending(stack)
    ensures AllFound(fs, top.zDir, top.rest) && PendingFound(fs, stack) ==> PendingFound(fs, stack + [top])
    ensures Ancestors(stack) && (stack != [] ==> ChildOf(top.zDir, stack[|stack| - 1].zDir)) ==> Ancestors(stack + [top])
  {
    hide VisitsOf, AllFound, ChildOf;
    assert (stack + [top])[..|stack|] == stack;
  }

  /** A stack after an entry of its topmost directory has been read. */
  function AfterRead(stack: seq<Frame>): (r: seq<Frame>)
    requires stack != []
    ensures |r| == |stack|
  {
    var top := stack[|stack| - 1];
    stack[|stack| - 1 := Frame(top.zDir, if top.rest == [] then [] else top.rest[1..])]
  }

  lemma StackRead(fs: FileSystem, stack: seq<Frame>)
    requires stack != [] && Ancestors(stack) && PendingFound(fs, stack)
    ensures var top := stack[|stack| - 1];
            && Ancestors(AfterRead(stack)) && PendingFound(fs, AfterRead(stack))
            && (top.rest == [] ==> AfterRead(stack) == stack)
            && (top.rest != [] ==>
                var e := top.rest[0];
                && Unread(AfterRead(stack)) < Unread(stack)
                && (IsDot(e.name) ==> Pending(stack) == Pending(AfterRead(stack)))
                && (!IsDot(e.name) ==>
                    && Pending(stack) == Visits(Join(top.zDir, e.name), e.node) + Pending(AfterRead(stack))
                    && Found(fs, Join(top.zDir, e.name), e.node) && ChildOf(Join(top.zDir, e.name), top.zDir)))
  {
    hide Visits, VisitsOf, Found, AllFound, IsDot, Pending, PendingFound, Ancestors, ChildOf;
    var top := stack[|stack| - 1];
    ReadFound(fs, stack);
    if top.rest != [] {
      ReadPending(stack);
      JoinChild(top.zDir, top.rest[0].name);
      var n := |stack| - 1;
      assert AfterRead(stack)[..n] == stack[..n];
    }
  }

  lemma ReadFound(fs: FileSystem, stack: seq<Frame>)
    requires stack != [] && Ancestors(stack) && PendingFound(fs, stack)
    ensures Ancestors(AfterRead(stack)) && PendingFound(fs, AfterRead(stack))
    ensures var top := stack[|stack| - 1];
            top.rest != [] && !IsDot(top.rest[0].name) ==> Found(fs, Join(top.zDir, top.rest[0].name), top.rest[0].node)
  {
    hide Found, IsDot, ChildOf;
    assert AllFound(fs, stack[|stack| - 1].zDir, stack[|stack| - 1].rest);
  }

  lemma JoinChild(dir: string, name: Name)
    ensures !IsDot(name) ==> ChildOf(Join(dir, name), dir)
  {
    var path := Join(dir, name);
    assert path[..|dir| + 1] == dir + "/" && path[|dir| + 1..] == name;
  }

  lemma ReadPending(stack: seq<Frame>)
    requires stack != [] && stack[|stack| - 1].rest != []
    ensures var top := stack[|stack| - 1];
            var e := top.rest[0];
            Pending(stack) == if IsDot(e.name) then Pending(AfterRead(stack))
                              else Visits(Join(top.zDir, e.name), e.node) + Pending(AfterRead(stack))
  {
    hide Visits, IsDot;
    var top := stack[|stack| - 1];
    var e := top.rest[0];
    var more, below := VisitsOf(top.zDir, top.rest[1..]), Pending(stack[..|stack| - 1]);
    assert AfterRead(stack)[..|stack| - 1] == stack[..|stack| - 1];
    if IsDot(e.name) {
      assert [] + more == more;
    } else {
      Texts.Assoc(Visits(Join(top.zDir, e.name), e.node), more, below);
    }
  }

  lemma StackPop(fs: FileSystem, stack: seq<Frame>)
    requires stack != [] && stack[|stack| - 1].rest == [] && Ancestors(stack) && PendingFound(fs, stack)
    ensures var less := stack[..|stack| - 1];
            && Ancestors(less) && PendingFound(fs, less) && Unread(less) < Unread(stack)
            && Pending(less) == Pending(stack)
  {
    hide AllFound, ChildOf;
    var less := stack[..|stack| - 1];
    assert [] + Pending(less) == Pending(less);
  }

  // ----- a whole scan

  function Based(base: string, visits: seq<Visit>): (r: seq<Visit>)
    ensures |r| == |visits| && forall i :: 0 <= i < |visits| ==> r[i] == Visit(Join(base, visits[i].path), visits[i].node)
  {
    seq(|visits|, i requires 0 <= i < |visits| => Visit(Join(base, visits[i].path), visits[i].node))
  }

  lemma BasedConcat(base: string, a: seq<Visit>, b: seq<Visit>)
    ensures Based(base, a + b) == Based(base, a) + Based(base, b)
    ensures Based(base, []) == []
  {
  }

  lemma BasedOne(base: string, v: Visit)
    ensures Based(base, [v]) == [Visit(Join(base, v.path), v.node)]
  {
  }

  lemma JoinAssoc(base: string, dir: string, name: string)
    ensures Join(Join(base, dir), name) == Join(base, Join(dir, name))
  {
  }

  /** A base directory stands in front of all paths. */
  lemma {:induction false} VisitsBased(base: string, path: string, node: Option<Node>)
    ensures Visits(Join(base, path), node) == Based(base, Visits(path, node))
    decreases node
  {
    hide Based, Join, VisitsOf;
    BasedOne(base, Visit(path, node));
    if node.Some? && S_ISDIR(node.value.mode) {
      VisitsOfBased(base, path, node.value.entries);
      BasedConcat(base, [Visit(path, node)], VisitsOf(path, node.value.entries));
    } else {
      BasedConcat(base, [Visit(path, node)], []);
    }
  }

  lemma {:induction false} VisitsOfBased(base: string, dir: string, entries: seq<Entry>)
    ensures VisitsOf(Join(base, dir), entries) == Based(base, VisitsOf(dir, entries))
    decreases entries
  {
    hide Based, Join, Visits;
    if entries == [] {
      BasedConcat(base, [], []);
    } else {
      var e := entries[0];
      var first := if IsDot(e.name) then [] else Visits(Join(dir, e.name), e.node);
      VisitsOfBased(base, dir, entries[1..]);
      JoinAssoc(base, dir, e.name);
      VisitsBased(base, Join(dir, e.name), e.node);
      BasedConcat(base, first, VisitsOf(dir, entries[1..]));
    }
  }

  /** The files of a scan by their name column. */
  ghost predicate Named(all: seq<Visit>, names: seq<Visit>, nBase: nat): (r: bool)
    ensures r ==> |all| == |names|
  {
    |all| == |names|
    && forall i :: 0 <= i < |all| ==> nBase <= |all[i].path| && names[i] == Visit(all[i].path[nBase..], all[i].node)
  }

  lemma StartNamed(zDir: string, zBase: Option<string>, node: Option<Node>)
    ensures Named(Visits(FsdirCursor.StartPath(zDir, zBase), node) + [], Visits(zDir, node),
                  if zBase.Some? then |zBase.value| + 1 else 0)
  {
    hide Visits;
    var names, all := Visits(zDir, node), Visits(FsdirCursor.StartPath(zDir, zBase), node);
    assert all + [] == all;
    if zBase.Some? {
      VisitsBased(zBase.value, zDir, node);
      forall i | 0 <= i < |names|
        ensures Join(zBase.value, names[i].path)[|zBase.value| + 1..] == names[i].path
      {
      }
    }
  }

  /** SQLite's use of a cursor: xFilter, then xColumn and xNext until xEof or an error, and xClose. */
  method Scan(cursor: FsdirCursor, zDir: string, zBase: Option<string>) returns (rc: Code, rows: seq<Row>)
    requires cursor.Closable()
    requires var path := FsdirCursor.StartPath(zDir, zBase);
             Found(cursor.fs, path, cursor.fs(path))
    modifies cursor, cursor.streams
    ensures var l := Cut(Visits(zDir, cursor.fs(FsdirCursor.StartPath(zDir, zBase))));
            rows == l.rows && rc == if l.failed then SQLITE_ERROR else SQLITE_OK
    ensures forall s :: s in cursor.streams ==> !s.isOpen
  {
    hide Visits, VisitsOf, Found, Named;
    rows := [];
    ghost var node := cursor.fs(FsdirCursor.StartPath(zDir, zBase));
    rc := cursor.FsdirFilter(if zBase.Some? then [Some(zDir), zBase] else [Some(zDir)]);
    if rc == SQLITE_OK {
      StartNamed(zDir, zBase, node);
      rc, rows := ReadRows(cursor, Visits(zDir, node));
    }
    cursor.FsdirResetCursor();
  }

  /** Reading ends with the last row, or with an error; the streams are then closed already, or can be closed. */
  method ReadRows(cursor: FsdirCursor, ghost names: seq<Visit>) returns (rc: Code, rows: seq<Row>)
    requires cursor.Ready() && cursor.zPath.Some? && Named(cursor.Remaining(), names, cursor.nBase)
    modifies cursor, cursor.streams
    ensures rows == Cut(names).rows && rc == if Cut(names).failed then SQLITE_ERROR else SQLITE_OK
    ensures cursor.Closable() && fresh(cursor.streams - old(cursor.streams))
    ensures rc == SQLITE_OK ==> forall s :: s in cursor.streams ==> !s.isOpen
  {
    hide *;
    ghost var all := cursor.Remaining();
    rc, rows := SQLITE_OK, [];
    CutStart(names);
    while !cursor.FsdirEof()
      invariant rc == SQLITE_OK && fresh(cursor.streams - old(cursor.streams))
      invariant cursor.Ready() && (cursor.zPath == None ==> cursor.stack == [])
      invariant Named(all, names, cursor.nBase) && |rows| <= |all|
      invariant cursor.Remaining() == all[|rows|..] && Cut(names) == After(rows, Cut(names[|rows|..]))
      decreases |cursor.Remaining()|
    {
      cursor.CurrentRow();
      CutStep(all, names, cursor.nBase, rows);
      rows := rows + [Row(cursor.Name(), cursor.stMode)];
      rc := cursor.FsdirNext();
      if rc != SQLITE_OK {
        return;
      }
    }
    cursor.NothingRemains();
    cursor.AllClosed();
    assert names[|rows|..] == [];
    CutEnd(rows);
  }

  lemma CutStart(names: seq<Visit>)
    ensures Cut(names) == After([], Cut(names[0..]))
  {
    assert names[0..] == names && [] + Cut(names).rows == Cut(names).rows;
  }

  lemma CutEnd(rows: seq<Row>)
    ensures After(rows, Cut([])) == Listing(rows, false)
  {
    assert rows + [] == rows;
  }

  /** What the row of the current file adds. */
  lemma CutStep(all: seq<Visit>, names: seq<Visit>, nBase: nat, rows: seq<Row>)
    requires Named(all, names, nBase) && |rows| < |all| && !Missing(all[|rows|])
    ensures var k := |rows|;
            var more := rows + [Row(names[k].path, RowOf(all[k]).mode)];
            && nBase <= |all[k].path| && names[k].path == all[k].path[nBase..]
            && all[k..][0] == all[k] && all[k..][1..] == all[k + 1..]
            && After(rows, Cut(names[k..]))
               == (if Unreadable(all[k]) then Listing(more, true)
                   else if Fails(all[k + 1..]) then Listing(more, true)
                   else After(more, Cut(names[k + 1..])))
  {
    var k := |rows|;
    var row := RowOf(names[k]);
    assert names[k..][1..] == names[k + 1..];
    var rest := Cut(names[k + 1..]).rows;
    assert rows + ([row] + rest) == (rows + [row]) + rest;
    assert [row] + [] == [row];
  }
}
