/**
 * The vector of task threads of the rewards service and the loop that joins them, as a state
 * machine whose steps are the sections under the vector's mutex.
 */
module TaskVector {

  /** Where the thread is that calls TestingJoinAllRunningTasks. */
  datatype Joiner = Away | Looking | Joining(t: nat) | Sleeping | Returned

  /** Threads are numbered in the order in which they were started. */
  datatype State = State(nTasks: nat, unfinished: set<nat>, tasksInProgress: seq<nat>, joiner: Joiner, joined: seq<nat>)

  /** RunTask may be called by a running task, by the joining thread before the join, or by another thread. */
  datatype Action =
    | SpawnByTask(spawner: nat)
    | SpawnByJoiner
    | SpawnByOther
    | Finish(t: nat)
    | Enter
    | PopBack
    | Join
    | WakeUp
    | SeeEmpty
    | Leave

  const START := State(0, {}, [], Away, [])

  predicate Enabled(s: State, a: Action) {
    match a
    case SpawnByTask(spawner) => spawner in s.unfinished
    case SpawnByJoiner => s.joiner.Away?
    case SpawnByOther => true
    case Finish(t) => t in s.unfinished
    case Enter => s.joiner.Away?
    case PopBack => s.joiner.Looking? && s.tasksInProgress != []
    case Join => s.joiner.Joining? && s.joiner.t !in s.unfinished
    case WakeUp => s.joiner.Sleeping?
    case SeeEmpty => s.joiner.Looking? && s.tasksInProgress == []
    case Leave => s.joiner.Returned?
  }

  /** RunTask: the new thread is put at the end of the vector. */
  function RunTask(s: State): State {
    s.(nTasks := s.nTasks + 1, unfinished := s.unfinished + {s.nTasks}, tasksInProgress := s.tasksInProgress + [s.nTasks])
  }

  function Apply(s: State, a: Action): State
    requires Enabled(s, a)
  {
    match a
    case SpawnByTask(_) => RunTask(s)
    case SpawnByJoiner => RunTask(s)
    case SpawnByOther => RunTask(s)
    case Finish(t) => s.(unfinished := s.unfinished - {t})
    case Enter => s.(joiner := Looking)
    case PopBack =>
      var n := |s.tasksInProgress| - 1;
      s.(joiner := Joining(s.tasksInProgress[n]), tasksInProgress := s.tasksInProgress[..n])
    case Join => s.(joiner := Sleeping, joined := s.joined + [s.joiner.t])
    case WakeUp => s.(joiner := Looking)
    case SeeEmpty => s.(joiner := Returned)
    case Leave => s.(joiner := Away)
  }

  /** The actions can be done one after the other, from the start. */
  predicate Possible(run: seq<Action>)
    decreases |run|, 0
  {
    run != [] ==> Possible(run[..|run| - 1]) && Enabled(After(run[..|run| - 1]), run[|run| - 1])
  }

  function After(run: seq<Action>): State
    requires Possible(run)
    decreases |run|, 1
  {
    if run == [] then START else Apply(After(run[..|run| - 1]), run[|run| - 1])
  }

  // ----- what every step keeps

  predicate Distinct(ts: seq<nat>) {
    forall i, j :: 0 <= i < j < |ts| ==> ts[i] != ts[j]
  }

  /** Each thread is in the vector, being joined or joined already, in one place and once; finished ones only are joined. */
  ghost predicate Kept(s: State) {
    && Distinct(s.tasksInProgress) && Distinct(s.joined)
    && (forall t :: 0 <= t < s.nTasks ==> t in s.tasksInProgress || s.joiner == Joining(t) || t in s.joined)
    && (forall t :: t in s.tasksInProgress ==> t < s.nTasks && s.joiner != Joining(t) && t !in s.joined)
    && (forall t :: t in s.joined ==> t < s.nTasks && s.joiner != Joining(t) && t !in s.unfinished)
    && (s.joiner.Joining? ==> s.joiner.t < s.nTasks)
    && (forall t :: t in s.unfinished ==> t < s.nTasks)
  }

  lemma SpawnKeeps(s: State)
    requires Kept(s)
    ensures Kept(RunTask(s))
  {
  }

  lemma PopKeeps(s: State)
    requires Kept(s) && Enabled(s, PopBack)
    ensures Kept(Apply(s, PopBack))
  {
    var s' := Apply(s, PopBack);
    var n := |s.tasksInProgress| - 1;
    assert s.tasksInProgress == s'.tasksInProgress + [s'.joiner.t];
    forall t | t in s'.tasksInProgress
      ensures t in s.tasksInProgress && t != s'.joiner.t
    {
      var i :| 0 <= i < n && s.tasksInProgress[i] == t;
      assert s.tasksInProgress[n] == s'.joiner.t;
    }
  }

  lemma StepKeeps(s: State, a: Action)
    requires Kept(s) && Enabled(s, a)
    ensures Kept(Apply(s, a))
  {
    if a.SpawnByTask? || a == SpawnByJoiner || a == SpawnByOther {
      SpawnKeeps(s);
    } else if a == PopBack {
      PopKeeps(s);
    }
  }

  lemma {:induction false} RunKeeps(run: seq<Action>)
    requires Possible(run)
    ensures Kept(After(run))
  {
    if run == [] {
    } else {
      RunKeeps(run[..|run| - 1]);
      hide Kept;
      StepKeeps(After(run[..|run| - 1]), run[|run| - 1]);
    }
  }

  /** Whoever starts tasks: when the join sees the vector empty, all tasks so far have finished and have been joined. */
  lemma EmptyMeansFinished(run: seq<Action>)
    requires Possible(run) && Enabled(After(run), SeeEmpty)
    ensures After(run).unfinished == {}
    ensures forall t :: 0 <= t < After(run).nTasks ==> t in After(run).joined
  {
    RunKeeps(run);
  }

  /** The state after the first n actions. */
  function At(run: seq<Action>, n: nat): State
    requires Possible(run) && n <= |run|
  {
    PrefixPossible(run, n);
    After(run[..n])
  }

  lemma {:induction false} PrefixPossible(run: seq<Action>, n: nat)
    requires Possible(run) && n <= |run|
    ensures Possible(run[..n])
    decreases |run|
  {
    if n == |run| {
      assert run[..n] == run;
    } else {
      PrefixPossible(run[..|run| - 1], n);
      assert run[..|run| - 1][..n] == run[..n];
    }
  }

  lemma AtStep(run: seq<Action>, n: nat)
    requires Possible(run) && n < |run|
    ensures Enabled(At(run, n), run[n]) && At(run, n + 1) == Apply(At(run, n), run[n])
  {
    PrefixPossible(run, n + 1);
    assert run[..n + 1][..n] == run[..n];
  }

  /** No task is left over when the join has returned. */
  predicate Settled(s: State) {
    s.joiner.Returned? ==> s.unfinished == {}
  }

  /** Another thread starts a task after the join has returned. */
  predicate Late(s: State, a: Action) {
    a == SpawnByOther && s.joiner.Returned?
  }

  lemma {:induction false} SettledWithoutLate(run: seq<Action>, n: nat)
    requires Possible(run) && n <= |run| && forall k :: 0 <= k < n ==> !Late(At(run, k), run[k])
    ensures Settled(At(run, n))
  {
    if n == 0 {
      assert run[..0] == [];
    } else {
      SettledWithoutLate(run, n - 1);
      AtStep(run, n - 1);
      PrefixPossible(run, n - 1);
      if run[n - 1] == SeeEmpty {
        EmptyMeansFinished(run[..n - 1]);
      }
    }
  }

  /**
   * No task is left over in any state of a run in which the join has returned, just when no other
   * thread starts a task in such a state: what it starts before the join's last look at the vector
   * is joined as well.
   */
  lemma ReturnedMeansFinished(run: seq<Action>)
    requires Possible(run)
    ensures (forall n :: 0 <= n <= |run| ==> Settled(At(run, n)))
       <==> (forall n :: 0 <= n < |run| ==> !Late(At(run, n), run[n]))
  {
    if n :| 0 <= n < |run| && Late(At(run, n), run[n]) {
      AtStep(run, n);
      assert At(run, n).nTasks in At(run, n + 1).unfinished;
    } else {
      forall n | 0 <= n <= |run|
        ensures Settled(At(run, n))
      {
        SettledWithoutLate(run, n);
      }
    }
  }

  /** Another thread can start a task behind the join's back. */
  lemma OtherSpawner()
    ensures Possible([Enter, SeeEmpty, SpawnByOther])
    ensures var s := After([Enter, SeeEmpty, SpawnByOther]);
            s.joiner.Returned? && s.unfinished == {0}
  {
    var r1, r2, r3 := [Enter], [Enter, SeeEmpty], [Enter, SeeEmpty, SpawnByOther];
    assert r1[..0] == [] && r2[..1] == r1 && r3[..2] == r2;
    assert Possible([]) && After([]) == START;
    assert Possible(r1) && After(r1) == START.(joiner := Looking);
    assert Possible(r2) && After(r2) == START.(joiner := Returned);
  }

  /** No task is joined twice, and none is joined before it has finished. */
  lemma JoinedOnce(run: seq<Action>)
    requires Possible(run)
    ensures Distinct(After(run).joined)
    ensures forall t :: t in After(run).joined ==> t !in After(run).unfinished
  {
    RunKeeps(run);
  }
}
