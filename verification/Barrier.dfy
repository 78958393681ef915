/** The join/leave barrier of src/barrier.h, which also limits how many threads run at once.
    Every call runs under the scheduler's lock, so a call is one step. The first half of the module is
    about barrier states as values; the class below changes its arrays step by step and ties them to it. */
module Barrier {
  import opened Sets

  datatype ThreadState = OFFLINE | WAITING | RUNNING | LEFT
  datatype Info = Info(state: ThreadState, futexWord: nat, lastIdx: nat)

  function Where(th: seq<Info>, st: ThreadState): set<nat> {
    set t: nat | t < |th| && th[t].state == st
  }

  /** par: parallelThreads; th: threadList; run: runList up to runListSize; cur: curThreadIdx;
      running and left: the two counters. For the proofs, at: where a listed thread stands in run;
      woken: the threads woken in this phase that have not left since;
      known: those woken since they were last OFFLINE. */
  datatype Bar = Bar(par: nat, th: seq<Info>, run: seq<nat>, cur: nat, running: int, left: int,
                     at: seq<nat>, woken: set<nat>, known: set<nat>)
  {
    predicate Is(t: nat, st: ThreadState) {
      t < |th| && th[t].state == st
    }

    function InState(st: ThreadState): set<nat> {
      Where(th, st)
    }

    /** lastIdx says where the thread stands in the run list. */
    predicate Anchored(t: nat) {
      t < |th| && th[t].lastIdx < |run| && run[th[t].lastIdx] == t
    }

    /** Nobody waiting is left to serve in this phase. */
    ghost predicate Served()
      requires |at| == |th|
    {
      forall t: nat | Is(t, WAITING) :: at[t] < cur
    }

    ghost predicate ThreadOk(t: nat)
      requires t < |th| == |at|
    {
      if th[t].state == OFFLINE then t !in woken && t !in known
      else
        && at[t] < |run| && run[at[t]] == t
        // a waiting thread finds its futex word changed when it is woken
        && (th[t].state == WAITING ==> th[t].futexWord == 1)
        && (th[t].state != WAITING || t in known ==> th[t].lastIdx == at[t])
        // before cur: threads woken in this phase, or gone; from cur on: threads not woken yet
        && (if th[t].state == LEFT then t !in woken else at[t] < cur <==> t in woken)
        && (th[t].state == RUNNING ==> at[t] < cur && t in known)
    }

    /** What holds all the time, even between the steps of one call. */
    ghost predicate Base()
    {
      && par > 0 && cur <= |run| && |at| == |th|
      && (forall t: nat | t < |th| :: ThreadOk(t))
      && (forall i | 0 <= i < |run| :: run[i] < |th| && at[run[i]] == i && th[run[i]].state != OFFLINE)
      && (forall t | t in woken :: t < |th|) && (forall t | t in known :: t < |th|)
      && running == |InState(RUNNING)| <= par
      && left == |InState(LEFT)|
    }

    /** What holds after every call: the allowed parallelism is used up or everybody had a turn,
        and if nobody runs then everybody left. */
    ghost predicate Stable()
    {
      && Base()
      && (running == par || cur == |run|)
      && (running == 0 ==> left == |run|)
    }
  }

  lemma CountChange(th: seq<Info>, t: nat, i: Info, st: ThreadState)
    requires t < |th|
    ensures |Where(th[t := i], st)| ==
      |Where(th, st)| - (if th[t].state == st then 1 else 0) + (if i.state == st then 1 else 0)
  {
    var th' := th[t := i];
    assert Where(th, st) - {t} == Where(th', st) - {t} by {
      assert forall u: nat | u < |th| && u != t :: th'[u] == th[u];
    }
    AgreeExcept(Where(th, st), Where(th', st), t);
  }

  /** s' differs from s in thread t only: the counters follow. */
  lemma Counters(s: Bar, t: nat, s': Bar)
    requires t < |s.th| == |s'.th| && s'.th == s.th[t := s'.th[t]]
    ensures |s'.InState(RUNNING)| == |s.InState(RUNNING)| -
      (if s.th[t].state == RUNNING then 1 else 0) + (if s'.th[t].state == RUNNING then 1 else 0)
    ensures |s'.InState(LEFT)| == |s.InState(LEFT)| -
      (if s.th[t].state == LEFT then 1 else 0) + (if s'.th[t].state == LEFT then 1 else 0)
  {
    CountChange(s.th, t, s'.th[t], RUNNING);
    CountChange(s.th, t, s'.th[t], LEFT);
  }

  lemma RunSize(s: Bar)
    requires s.Base()
    ensures |set i | 0 <= i < |s.run| :: s.run[i]| == |s.run|
  {
    forall i, j | 0 <= i < j < |s.run| ensures s.run[i] != s.run[j] {
      assert s.at[s.run[i]] == i && s.at[s.run[j]] == j;
    }
    DistinctSize(s.run, |s.run|);
  }

  /** The counter tells whether every listed thread left. */
  lemma AllLeft(s: Bar)
    requires s.Base()
    ensures s.left <= |s.run|
    ensures s.left == |s.run| <==> forall t: nat | t < |s.th| :: s.th[t].state == OFFLINE || s.th[t].state == LEFT
  {
    var members := set i | 0 <= i < |s.run| :: s.run[i];
    RunSize(s);
    forall t: nat | t < |s.th| && s.th[t].state != OFFLINE ensures t in members {
      assert s.ThreadOk(t);
      assert s.run[s.at[t]] == t;
    }
    assert s.InState(LEFT) <= members;
    SubsetSize(s.InState(LEFT), members);
    if s.left == |s.run| {
      forall t: nat | t < |s.th| && s.th[t].state != OFFLINE ensures s.th[t].state == LEFT {
        assert t in s.InState(LEFT);
      }
    }
    assert (forall t | t in members :: s.th[t].state == LEFT) ==> s.InState(LEFT) == members;
  }

  lemma NobodyRuns(s: Bar)
    requires s.Base()
    ensures s.running == 0 <==> forall t: nat :: !s.Is(t, RUNNING)
  {
    if s.running == 0 {
      forall t: nat ensures !s.Is(t, RUNNING) {
        assert t !in s.InState(RUNNING);
      }
    } else {
      var t :| t in s.InState(RUNNING);
      assert s.Is(t, RUNNING);
    }
  }

  /** No deadlock: after any call, a waiting thread implies a running one. */
  lemma WaiterImpliesRunner(s: Bar, t: nat)
    requires s.Stable() && s.Is(t, WAITING)
    ensures s.running > 0 && exists u: nat :: s.Is(u, RUNNING)
  {
    AllLeft(s);
    NobodyRuns(s);
  }

  // ---- waking: checkRunList

  /** One turn of checkRunList: wakes the next listed thread, or skips it if it left. */
  ghost function WakeNext(s: Bar): Bar
    requires s.cur < |s.run| && s.run[s.cur] < |s.th|
  {
    var t := s.run[s.cur];
    if s.th[t].state == WAITING then
      s.(th := s.th[t := Info(RUNNING, 0, s.cur)], cur := s.cur + 1, running := s.running + 1,
         woken := s.woken + {t}, known := s.known + {t})
    else s.(cur := s.cur + 1)
  }

  lemma WakeNextKeepsBase(s: Bar)
    requires s.Base() && s.cur < |s.run| && s.running < s.par
    ensures WakeNext(s).Base()
  {
    var t := s.run[s.cur];
    var s' := WakeNext(s);
    assert s.ThreadOk(t) && s.at[t] == s.cur;
    forall u: nat | u < |s.th| ensures s'.ThreadOk(u) {
      assert s.ThreadOk(u);
      assert u != t && s.th[u].state != OFFLINE ==> s.at[u] != s.cur;
    }
    Counters(s, t, s');
  }

  /** Wakes threads in run-list order until the parallelism is used up or the list ends. */
  ghost function AfterWake(s: Bar): Bar
    requires s.Base()
    decreases |s.run| - s.cur
  {
    if s.running < s.par && s.cur < |s.run| then
      WakeNextKeepsBase(s);
      AfterWake(WakeNext(s))
    else s
  }

  /** From s to s', waiting threads that stood from s.cur up to s'.cur started to run, and nothing else changed. */
  ghost predicate Woke(s: Bar, s': Bar)
    requires |s.at| == |s.th|
  {
    && s' == s.(th := s'.th, cur := s'.cur, running := s'.running, woken := s'.woken, known := s'.known)
    && |s'.th| == |s.th| && s.cur <= s'.cur <= |s.run| && s.running <= s'.running
    && (forall t: nat | t < |s.th| :: s'.th[t] ==
          if s.th[t].state == WAITING && s.cur <= s.at[t] < s'.cur then Info(RUNNING, 0, s.at[t]) else s.th[t])
    && (forall t: nat | t < |s.th| :: t in s'.known <==> t in s.known || s'.th[t] != s.th[t])
  }

  lemma NextInLine(s: Bar)
    requires s.Base() && s.cur < |s.run| && s.running < s.par
    ensures s.run[s.cur] < |s.th| && WakeNext(s).Base() && AfterWake(s) == AfterWake(WakeNext(s))
    ensures s.th[s.run[s.cur]].state == WAITING ==> s.th[s.run[s.cur]].futexWord == 1
  {
    WakeNextKeepsBase(s);
    assert s.ThreadOk(s.run[s.cur]);
  }

  lemma NobodyInLine(s: Bar)
    requires s.Base() && (s.running >= s.par || s.cur >= |s.run|)
    ensures AfterWake(s) == s
  {
  }

  lemma WakeNextWoke(s: Bar)
    requires s.Base() && s.cur < |s.run| && s.run[s.cur] < |s.th|
    ensures Woke(s, WakeNext(s))
  {
    forall t: nat | t < |s.th| ensures t == s.run[s.cur] <==> s.th[t].state != OFFLINE && s.at[t] == s.cur {
      assert s.ThreadOk(t);
    }
  }

  lemma WokeTrans(s: Bar, m: Bar, s': Bar)
    requires |s.at| == |s.th| && Woke(s, m) && Woke(m, s')
    ensures Woke(s, s')
  {
  }

  lemma {:induction false} AfterWakeSpec(s: Bar)
    requires s.Base()
    ensures var s' := AfterWake(s);
      s'.Base() && Woke(s, s') && (s'.running == s'.par || s'.cur == |s'.run|)
    decreases |s.run| - s.cur
  {
    hide Woke, Bar.ThreadOk;
    if s.running < s.par && s.cur < |s.run| {
      WakeNextKeepsBase(s);
      WakeNextWoke(s);
      AfterWakeSpec(WakeNext(s));
      WokeTrans(s, WakeNext(s), AfterWake(WakeNext(s)));
    } else {
      NothingWoke(s);
    }
  }

  lemma NothingWoke(s: Bar)
    requires s.Base()
    ensures Woke(s, s)
  {
  }

  /** A thread is woken at most once per phase: those woken before are left alone, and those woken now are recorded. */
  lemma WokenOncePerPhase(s: Bar, t: nat)
    requires s.Base() && t < |s.th|
    ensures var s' := AfterWake(s);
      && |s'.th| == |s.th|
      && (t in s.woken ==> s'.th[t] == s.th[t])
      && (s.th[t].state == WAITING && s'.th[t].state == RUNNING ==> t !in s.woken)
      && (t in s'.woken <==> t in s.woken || s'.th[t] != s.th[t])
  {
    AfterWakeSpec(s);
    assert s.ThreadOk(t) && AfterWake(s).ThreadOk(t);
  }

  /** A waiting thread not yet served in this phase gets somebody running. */
  lemma SomebodyWakes(s: Bar, t: nat)
    requires s.Base() && s.Is(t, WAITING) && s.cur <= s.at[t]
    ensures AfterWake(s).running > 0
  {
    AfterWakeSpec(s);
    var s' := AfterWake(s);
    assert s.ThreadOk(t);
    if s'.cur == |s'.run| {
      assert s'.Is(t, RUNNING);
      NobodyRuns(s');
    }
  }

  /** With nobody left to serve, checkRunList only advances. */
  lemma NobodyToWake(s: Bar)
    requires s.Base()
    requires forall t: nat | s.Is(t, WAITING) :: s.at[t] < s.cur
    ensures AfterWake(s).th == s.th && AfterWake(s).running == s.running
  {
    AfterWakeSpec(s);
    var s' := AfterWake(s);
    assert forall t: nat | t < |s.th| && s.th[t].state == WAITING :: s.Is(t, WAITING);
    assert s'.th == s.th;
  }

  // ---- the end of a phase: checkEndPhase

  /** Nobody runs, nobody is left to serve, and not everybody left. */
  ghost predicate PhaseOver(s: Bar)
    requires |s.at| == |s.th|
  {
    && s.running == 0
    && (forall t: nat | s.Is(t, WAITING) :: s.at[t] < s.cur)
    && (exists t: nat :: s.Is(t, WAITING))
  }

  /** checkEndPhase finds the end of the phase exactly when the phase is over. */
  lemma EndDetected(s: Bar)
    requires s.Base()
    ensures var m := AfterWake(s);
      (m.cur == |m.run| && m.running == 0 && m.left != |m.run|) <==> PhaseOver(s)
  {
    AfterWakeSpec(s);
    var m := AfterWake(s);
    AllLeft(m);
    NobodyRuns(m);
    if PhaseOver(s) {
      NobodyToWake(s);
      var t: nat :| s.Is(t, WAITING);
      assert m.th[t].state == WAITING;
    } else if m.cur == |m.run| && m.running == 0 && m.left != |m.run| {
      var t: nat :| t < |m.th| && m.th[t].state != OFFLINE && m.th[t].state != LEFT;
      assert m.ThreadOk(t) && !m.Is(t, RUNNING) && s.Is(t, WAITING);
      var u: nat :| s.Is(u, WAITING) && s.at[u] >= s.cur;
      SomebodyWakes(s, u);
      assert false;
    }
  }

  /** When a phase ends, every thread still in the barrier was woken in it, and has come back. */
  lemma PhaseEndMeansAllRan(s: Bar, t: nat)
    requires s.Base() && PhaseOver(s) && t < |s.th|
    requires s.th[t].state != OFFLINE && s.th[t].state != LEFT
    ensures s.th[t].state == WAITING && t in s.woken
  {
    NobodyRuns(s);
    assert s.ThreadOk(t) && !s.Is(t, RUNNING) && s.Is(t, WAITING);
  }

  ghost function Rewind(s: Bar): Bar {
    s.(cur := 0, woken := {})
  }

  /** One removal of the cleanup pass: the last listed thread takes the place of one that left. */
  ghost function Drop(s: Bar, idx: nat): Bar
    requires idx < |s.run| && |s.at| == |s.th|
    requires s.run[idx] < |s.th| && s.run[|s.run| - 1] < |s.th|
  {
    var t, last := s.run[idx], |s.run| - 1;
    var u := s.run[last];
    var th := s.th[t := s.th[t].(state := OFFLINE)];
    s.(th := th[u := th[u].(lastIdx := idx)], run := s.run[idx := u][..last], at := s.at[u := idx], left := s.left - 1,
       known := s.known - {t})
  }

  /** Threads that left go OFFLINE and off the list; the others keep their state. */
  ghost predicate Cleaned(s: Bar, s': Bar)
  {
    && |s'.th| == |s.th| && s'.par == s.par && s'.cur == s.cur && s'.running == s.running && s'.woken == s.woken
    && |s'.run| <= |s.run| && s'.left + (|s.run| - |s'.run|) == s.left
    && (forall t: nat | t < |s.th| ::
          s'.th[t].state == s.th[t].state || (s.th[t].state == LEFT && s'.th[t].state == OFFLINE))
    && (forall t | t in s'.known :: t in s.known)
    && (forall t: nat | t < |s.th| && t in s.known :: t in s'.known <==> s'.th[t].state == s.th[t].state)
  }

  lemma CleanedSelf(s: Bar)
    ensures Cleaned(s, s)
  {
  }

  lemma CleanedTrans(s: Bar, m: Bar, s': Bar)
    requires Cleaned(s, m) && Cleaned(m, s')
    ensures Cleaned(s, s')
  {
  }

  lemma DropKeepsBase(s: Bar, idx: nat)
    requires s.Base() && s.cur == 0 && idx < |s.run| && s.th[s.run[idx]].state == LEFT
    ensures Drop(s, idx).Base() && Cleaned(s, Drop(s, idx))
    ensures forall i | 0 <= i < idx ::
      Drop(s, idx).run[i] == s.run[i] && Drop(s, idx).th[s.run[i]].state == s.th[s.run[i]].state
  {
    var s' := Drop(s, idx);
    var t, last := s.run[idx], |s.run| - 1;
    var u := s.run[last];
    forall v: nat | v < |s.th| ensures s'.ThreadOk(v) {
      assert s.ThreadOk(v);
      if v != t && v != u && s.th[v].state != OFFLINE {
        assert s.at[v] != idx && s.at[v] != last;
      }
    }
    assert s.at[u] == last && s.at[t] == idx;
    assert forall i | 0 <= i < idx :: s.at[s.run[i]] == i;
    var m := s.(th := s.th[t := s.th[t].(state := OFFLINE)]);
    Counters(s, t, m);
    Counters(m, u, s');
    assert s.left > 0 by { assert t in s.InState(LEFT); }
  }

  /** The cleanup pass from position idx on. */
  ghost function Cleanup(s: Bar, idx: nat): Bar
    requires s.Base() && s.cur == 0 && idx <= |s.run|
    decreases |s.run| - idx
  {
    if idx == |s.run| then s
    else if s.th[s.run[idx]].state == LEFT then
      DropKeepsBase(s, idx);
      Cleanup(Drop(s, idx), idx)
    else Cleanup(s, idx + 1)
  }

  lemma CleanupNext(s: Bar, idx: nat)
    requires s.Base() && s.cur == 0 && idx < |s.run|
    ensures s.run[idx] < |s.th| && s.run[|s.run| - 1] < |s.th| && |s.at| == |s.th|
    ensures s.th[s.run[idx]].state == LEFT ==> Drop(s, idx).Base() && Cleanup(s, idx) == Cleanup(Drop(s, idx), idx)
    ensures s.th[s.run[idx]].state != LEFT ==> Cleanup(s, idx) == Cleanup(s, idx + 1)
  {
    if s.th[s.run[idx]].state == LEFT {
      DropKeepsBase(s, idx);
    }
  }

  lemma CleanupEnds(s: Bar)
    requires s.Base() && s.cur == 0
    ensures Cleanup(s, |s.run|) == s
  {
  }

  lemma {:induction false} CleanupSpec(s: Bar, idx: nat)
    requires s.Base() && s.cur == 0 && idx <= |s.run|
    requires forall i | 0 <= i < idx :: s.th[s.run[i]].state != LEFT
    ensures var s' := Cleanup(s, idx);
      && s'.Base() && Cleaned(s, s') && s'.left == 0
    decreases |s.run| - idx
  {
    if idx == |s.run| {
      forall t: nat | t < |s.th| ensures s.th[t].state != LEFT {
        assert s.ThreadOk(t);
      }
      assert s.InState(LEFT) == {};
    } else if s.th[s.run[idx]].state == LEFT {
      DropKeepsBase(s, idx);
      var m := Drop(s, idx);
      CleanupSpec(m, idx);
      CleanedTrans(s, m, Cleanup(m, idx));
    } else {
      CleanupSpec(s, idx + 1);
    }
  }

  /** The counter tells how far the cleanup went: all threads that left are OFFLINE, or nobody's state changed. */
  lemma CleanedExactly(s: Bar, s': Bar, cleanup: bool)
    requires s.Base() && s'.Base() && Cleaned(s, s') && s'.left == if cleanup then 0 else s.left
    ensures forall t: nat | t < |s.th| ::
      s'.th[t].state == if cleanup && s.th[t].state == LEFT then OFFLINE else s.th[t].state
  {
    var a, b := s.InState(LEFT), s'.InState(LEFT);
    assert b <= a;
    SubsetSize(b, a);
    forall t: nat | t < |s.th| && s.th[t].state == LEFT
      ensures s'.th[t].state == if cleanup then OFFLINE else LEFT
    {
      assert t in a && (s'.th[t].state == LEFT <==> t in b) && (cleanup ==> b == {});
    }
  }

  /** One exchange of the shuffle. */
  ghost function Swap(s: Bar, i: nat, j: nat): Bar
    requires i < |s.run| && j < |s.run| && |s.at| == |s.th|
    requires s.run[i] < |s.th| && s.run[j] < |s.th|
  {
    var a, b := s.run[i], s.run[j];
    var th := s.th[a := s.th[a].(lastIdx := j)];
    s.(th := th[b := th[b].(lastIdx := i)], run := s.run[i := b][j := a], at := s.at[a := j][b := i])
  }

  lemma SwapKeepsBase(s: Bar, i: nat, j: nat)
    requires s.Base() && s.cur == 0 && i < |s.run| && j < |s.run|
    ensures Swap(s, i, j).Base() && Cleaned(s, Swap(s, i, j)) && Swap(s, i, j).left == s.left
  {
    var s' := Swap(s, i, j);
    var a, b := s.run[i], s.run[j];
    assert s.at[a] == i && s.at[b] == j;
    forall v: nat | v < |s.th| ensures s'.ThreadOk(v) {
      assert s.ThreadOk(v);
      if v != a && v != b && s.th[v].state != OFFLINE {
        assert s.at[v] != i && s.at[v] != j;
      }
    }
    assert s'.InState(RUNNING) == s.InState(RUNNING) && s'.InState(LEFT) == s.InState(LEFT);
  }

  // ---- join, leave, sync

  /** join, up to the call of tryWakeNext. A thread that left in this phase after its turn is put next in line. */
  ghost function Joined(s: Bar, tid: nat): Bar
    requires (s.Is(tid, OFFLINE) || s.Is(tid, LEFT)) && |s.th| == |s.at|
    requires s.th[tid].state == LEFT && s.cur > s.th[tid].lastIdx ==>
      s.cur <= |s.run| && s.run[s.cur - 1] < |s.th|
  {
    var i := s.th[tid].lastIdx;
    if s.th[tid].state == OFFLINE then
      s.(th := s.th[tid := Info(WAITING, 1, i)], run := s.run + [tid], at := s.at[tid := |s.run|])
    else if s.cur > i then
      var c := s.cur - 1;
      var other := s.run[c];
      var th := s.th[other := s.th[other].(lastIdx := i)];
      s.(th := th[tid := Info(WAITING, 1, c)], run := s.run[i := other][c := tid], at := s.at[other := i][tid := c],
         cur := c, left := s.left - 1)
    else
      s.(th := s.th[tid := Info(WAITING, 1, i)], left := s.left - 1)
  }

  lemma JoinedKeepsBase(s: Bar, tid: nat)
    requires s.Base() && (s.Is(tid, OFFLINE) || s.Is(tid, LEFT))
    ensures Joined(s, tid).Base()
    ensures Joined(s, tid).cur <= Joined(s, tid).at[tid]
    ensures s.running < s.par && s.cur == |s.run| ==>
      Joined(s, tid).at[tid] == Joined(s, tid).cur == |Joined(s, tid).run| - 1
  {
    assert s.ThreadOk(tid);
    if s.Is(tid, LEFT) && s.cur > s.th[tid].lastIdx {
      RejoinedKeepsBase(s, tid);
    } else {
      var s' := Joined(s, tid);
      forall v: nat | v < |s.th| ensures s'.ThreadOk(v) {
        assert s.ThreadOk(v);
      }
      Counters(s, tid, s');
      assert s.Is(tid, LEFT) ==> tid in s.InState(LEFT);
    }
  }

  /** The thread changes places with the last one woken. */
  lemma RejoinedKeepsBase(s: Bar, tid: nat)
    requires s.Base() && s.Is(tid, LEFT) && s.cur > s.th[tid].lastIdx
    ensures Joined(s, tid).Base()
  {
    var s', other := Joined(s, tid), s.run[s.cur - 1];
    assert s.ThreadOk(tid) && s.at[other] == s.cur - 1 && s.ThreadOk(other);
    forall v: nat | v < |s.th| ensures s'.ThreadOk(v) {
      assert s.ThreadOk(v);
      if v != tid && v != other && s.th[v].state != OFFLINE {
        assert s.at[v] != s.cur - 1 && s.at[v] != s.th[tid].lastIdx;
      }
    }
    var m := s.(th := s.th[other := s.th[other].(lastIdx := s.th[tid].lastIdx)]);
    Counters(s, other, m);
    Counters(m, tid, s');
    assert tid in s.InState(LEFT);
  }

  /** A join never ends the phase, and runs at once exactly when a slot is free; nobody else's state changes. */
  lemma JoinNeverEndsPhase(s: Bar, tid: nat)
    requires s.Stable() && (s.Is(tid, OFFLINE) || s.Is(tid, LEFT))
    ensures Joined(s, tid).Base() && !PhaseOver(Joined(s, tid))
    ensures var s' := AfterWake(Joined(s, tid));
      && s'.Stable()
      && |s'.th| == |s.th| && StillKnown(s, s')
      && s'.th[tid].state == (if s.running < s.par then RUNNING else WAITING)
      && forall t: nat | t < |s.th| && t != tid :: s'.th[t].state == s.th[t].state
  {
    JoinedKeepsBase(s, tid);
    var m := Joined(s, tid);
    assert m.Is(tid, WAITING);
    AfterWakeSpec(m);
    var s' := AfterWake(m);
    if s.running < s.par {
      WakeNextKeepsBase(m);
      assert m.ThreadOk(tid) && m.run[m.cur] == tid;
      assert s' == WakeNext(m);
    } else {
      assert s' == m;
    }
    NobodyRuns(s');
    assert s'.running > 0;
  }

  /** leave, up to the call of tryWakeNext that only a running leaver makes. */
  ghost function Departed(s: Bar, tid: nat): Bar
    requires tid < |s.th|
  {
    s.(th := s.th[tid := s.th[tid].(state := LEFT)], left := s.left + 1,
       running := if s.Is(tid, RUNNING) then s.running - 1 else s.running, woken := s.woken - {tid})
  }

  /** Leaving keeps the barrier consistent exactly when the run-list position remembered for the thread is right. It is
      for every thread that was woken since it was last OFFLINE, a running one in particular. */
  lemma DepartedKeepsBase(s: Bar, tid: nat)
    requires s.Base() && (s.Is(tid, RUNNING) || s.Is(tid, WAITING))
    ensures Departed(s, tid).Base() <==> s.Anchored(tid)
    ensures s.Is(tid, RUNNING) ==> tid in s.known
    ensures tid in s.known ==> s.Anchored(tid)
  {
    var s' := Departed(s, tid);
    assert s.ThreadOk(tid);
    assert s.Is(tid, RUNNING) ==> tid in s.InState(RUNNING);
    Counters(s, tid, s');
    forall v: nat | v < |s.th| && v != tid ensures s'.ThreadOk(v) {
      assert s.ThreadOk(v);
    }
    assert s.Anchored(tid) <==> s'.ThreadOk(tid);
  }

  /** sync, up to the call of tryWakeNext. */
  ghost function Synced(s: Bar, tid: nat): Bar
    requires tid < |s.th|
  {
    s.(th := s.th[tid := s.th[tid].(state := WAITING, futexWord := 1)], running := s.running - 1)
  }

  lemma SyncedKeepsBase(s: Bar, tid: nat)
    requires s.Base() && s.Is(tid, RUNNING)
    ensures Synced(s, tid).Base() && tid in s.known
  {
    assert s.ThreadOk(tid);
    assert tid in s.InState(RUNNING);
    var s' := Synced(s, tid);
    Counters(s, tid, s');
    forall v: nat | v < |s.th| ensures s'.ThreadOk(v) {
      assert s.ThreadOk(v);
    }
  }

  /** The hole in leave: thread 1 joined while thread 0 used up the parallelism, so its lastIdx was never set.
      If it leaves, every check passes; when it joins again, the assertion of line 137 fails. */
  lemma LeaveBeforeFirstTurn()
    ensures var s := Bar(1, [Info(RUNNING, 0, 0), Info(WAITING, 1, 0)], [0, 1], 1, 1, 0, [0, 1], {0}, {0});
      && s.Stable() && s.Is(1, WAITING) && 1 !in s.known && !s.Anchored(1)
      && var d := Departed(s, 1); d.cur > d.th[1].lastIdx && d.run[d.th[1].lastIdx] != 1
  {
    var s := Bar(1, [Info(RUNNING, 0, 0), Info(WAITING, 1, 0)], [0, 1], 1, 1, 0, [0, 1], {0}, {0});
    assert s.InState(RUNNING) == {0} && s.InState(LEFT) == {};
    assert s.ThreadOk(0) && s.ThreadOk(1);
  }

  lemma RewindKeepsBase(s: Bar)
    requires s.Base() && s.running == 0
    ensures Rewind(s).Base()
  {
    NobodyRuns(s);
    forall t: nat | t < |s.th| ensures Rewind(s).ThreadOk(t) {
      assert s.ThreadOk(t) && !s.Is(t, RUNNING);
    }
    assert Rewind(s).InState(RUNNING) == s.InState(RUNNING) && Rewind(s).InState(LEFT) == s.InState(LEFT);
  }

  /** Whoever was woken since it came online counts as such until it is OFFLINE again. */
  ghost predicate StillKnown(s: Bar, s': Bar)
    requires |s'.th| == |s.th|
  {
    forall t | t in s.known :: t in s'.known || s'.Is(t, OFFLINE)
  }

  /** Nobody that waits is lost, and nobody that left is woken. */
  predicate MayBecome(before: ThreadState, after: ThreadState) {
    match before
    case WAITING => after == WAITING || after == RUNNING
    case LEFT => after == LEFT || after == OFFLINE
    case st => after == st
  }

  ghost predicate NobodyLost(s: Bar, s': Bar)
    requires |s'.th| == |s.th|
  {
    forall t: nat | t < |s.th| :: MayBecome(s.th[t].state, s'.th[t].state)
  }

  /** What may happen to the other threads: those that wait may be woken, and those that left may go OFFLINE when a
      phase ends. */
  ghost predicate OthersKept(th: seq<Info>, th': seq<Info>, tid: nat, ended: bool)
    requires |th'| == |th|
  {
    forall t: nat | t < |th| && t != tid ::
      MayBecome(th[t].state, th'[t].state) && (th[t].state == LEFT && !ended ==> th'[t].state == LEFT)
  }

  lemma OthersFollow(s: Bar, m: Bar, s': Bar, tid: nat, ended: bool)
    requires m.Base() && |m.th| == |s.th| == |s'.th| && forall t: nat | t < |s.th| && t != tid :: m.th[t] == s.th[t]
    requires if ended then NobodyLost(m, s') else s' == AfterWake(m)
    ensures OthersKept(s.th, s'.th, tid, ended)
  {
    if !ended {
      AfterWakeSpec(m);
    }
  }

  /** A running thread left, and the next ones were woken, or a new phase started. */
  lemma LeaverGoes(s: Bar, s': Bar, tid: nat)
    requires s.Is(tid, RUNNING) && Departed(s, tid).Base()
    requires if PhaseOver(Departed(s, tid)) then NewPhase(Departed(s, tid), s') else s' == AfterWake(Departed(s, tid))
    ensures |s'.th| == |s.th| && OthersKept(s.th, s'.th, tid, PhaseOver(Departed(s, tid))) && StillKnown(s, s')
    ensures s'.th[tid].state == LEFT || (PhaseOver(Departed(s, tid)) && s'.th[tid].state == OFFLINE)
  {
    var m := Departed(s, tid);
    hide PhaseOver, Bar.Base;
    AfterWakeSpec(m);
    AfterWakeKnows(m);
    OthersFollow(s, m, s', tid, PhaseOver(m));
  }

  lemma WaiterGoes(s: Bar, tid: nat)
    requires s.Is(tid, WAITING)
    ensures var m := Departed(s, tid);
      |m.th| == |s.th| && m.th[tid].state == LEFT && OthersKept(s.th, m.th, tid, false) && StillKnown(s, m)
  {
  }

  /** Every thread woken in this phase runs, and no other. */
  ghost predicate JustStarted(s: Bar) {
    forall t: nat | t < |s.th| :: s.th[t].state == RUNNING <==> t in s.woken
  }

  /** From the end of one phase into the next. */
  ghost predicate NewPhase(s: Bar, s': Bar)
  {
    && |s'.th| == |s.th| && s'.running > 0 && StillKnown(s, s') && NobodyLost(s, s') && JustStarted(s')
  }

  lemma AfterWakeKnows(s: Bar)
    requires s.Base()
    ensures |AfterWake(s).th| == |s.th| && StillKnown(s, AfterWake(s))
  {
    AfterWakeSpec(s);
    forall t | t in s.known ensures t in AfterWake(s).known {
      assert t < |s.th|;
    }
  }

  lemma NewPhaseKnows(s: Bar, m: Bar, e: Bar)
    requires s.Base() && m == AfterWake(s) && |m.th| == |s.th| && e.Base() && Cleaned(Rewind(m), e)
    ensures |AfterWake(e).th| == |s.th| && StillKnown(s, AfterWake(e))
  {
    AfterWakeKnows(s);
    AfterWakeSpec(s);
    AfterWakeKnows(e);
    AfterWakeSpec(e);
    forall t | t in s.known ensures t in AfterWake(e).known || AfterWake(e).Is(t, OFFLINE) {
      assert t < |s.th| && s.ThreadOk(t) && m.ThreadOk(t);
    }
  }

  lemma NewPhaseStarts(s: Bar, m: Bar, e: Bar)
    requires s.Base() && PhaseOver(s) && m == AfterWake(s) && m.th == s.th && m.running == 0
    requires |m.th| == |s.th| && e.Base() && Cleaned(Rewind(m), e)
    ensures AfterWake(e).Stable() && NewPhase(s, AfterWake(e))
  {
    NewPhaseKnows(s, m, e);
    NewPhaseRuns(s, e);
    NewlyRunning(s, e);
    AfterWakeSpec(e);
    AllLeft(AfterWake(e));
    hide PhaseOver, Cleaned, Woke, Bar.Base, AfterWake, StillKnown, NobodyLost, JustStarted;
  }

  lemma NewPhaseRuns(s: Bar, e: Bar)
    requires s.Base() && PhaseOver(s) && |e.th| == |s.th| && e.Base() && e.cur == 0
    requires forall t: nat | t < |s.th| ::
      e.th[t].state == s.th[t].state || (s.th[t].state == LEFT && e.th[t].state == OFFLINE)
    ensures |AfterWake(e).th| == |s.th| && AfterWake(e).running > 0 && NobodyLost(s, AfterWake(e))
  {
    var t: nat :| s.Is(t, WAITING);
    assert e.Is(t, WAITING);
    SomebodyWakes(e, t);
    NobodyRuns(s);
    AfterWakeSpec(e);
    hide Bar.Base, PhaseOver, AfterWake;
    var s' := AfterWake(e);
    forall u: nat | u < |s.th| ensures MayBecome(s.th[u].state, s'.th[u].state) {
      assert !s.Is(u, RUNNING);
    }
  }

  /** In a new phase exactly the threads woken in it run. */
  lemma NewlyRunning(s: Bar, e: Bar)
    requires s.Base() && s.running == 0 && e.Base() && e.cur == 0 && |e.th| == |s.th|
    requires forall t: nat | t < |s.th| :: e.th[t].state == RUNNING ==> s.th[t].state == RUNNING
    ensures JustStarted(AfterWake(e))
  {
    AfterWakeSpec(e);
    NobodyRuns(s);
    var s' := AfterWake(e);
    forall t: nat | t < |s'.th| ensures s'.th[t].state == RUNNING <==> t in s'.woken {
      assert e.ThreadOk(t) && s'.ThreadOk(t) && !s.Is(t, RUNNING);
    }
  }

  /** The end of phase was not reached: one pass of checkRunList was all, and it leaves the barrier stable. */
  lemma StableAfterWake(s: Bar)
    requires s.Base() && !PhaseOver(s)
    ensures AfterWake(s).Stable() && AfterWake(AfterWake(s)) == AfterWake(s)
  {
    AfterWakeSpec(s);
    EndDetected(s);
  }

  lemma WaiterLeavesStable(s: Bar, tid: nat)
    requires s.Stable() && s.Is(tid, WAITING)
    ensures Departed(s, tid).Stable() <==> s.Anchored(tid)
    ensures tid in s.known ==> s.Anchored(tid)
  {
    DepartedKeepsBase(s, tid);
    WaiterImpliesRunner(s, tid);
  }

  lemma SizesAgree(s: Bar)
    requires s.Base()
    ensures |s.at| == |s.th|
  {
  }

  /** A thread that left stands where its lastIdx says. */
  lemma FormerPlace(s: Bar, tid: nat)
    requires s.Base() && s.Is(tid, LEFT)
    ensures s.cur <= |s.run| && |s.at| == |s.th| && (s.cur > 0 ==> s.run[s.cur - 1] < |s.th|)
    ensures s.th[tid].lastIdx < |s.run| && s.run[s.th[tid].lastIdx] == tid
  {
    assert s.ThreadOk(tid);
  }

  /** There is room in the run list for a thread that is OFFLINE. */
  lemma RoomToJoin(s: Bar, tid: nat)
    requires s.Base() && s.Is(tid, OFFLINE)
    ensures |s.run| < |s.th|
  {
    RunSize(s);
    var members := set i | 0 <= i < |s.run| :: s.run[i];
    assert tid !in members;
    SubsetSize(members + {tid}, Below(|s.th|));
  }

  lemma SyncEnds(s: Bar, tid: nat)
    requires s.Base() && s.Is(tid, RUNNING)
    ensures Synced(s, tid).Base()
    ensures PhaseOver(Synced(s, tid)) <==> s.running == 1 && s.Served()
  {
    SyncedKeepsBase(s, tid);
    var m := Synced(s, tid);
    assert m.Is(tid, WAITING) && s.ThreadOk(tid);
    assert forall t: nat | t != tid :: m.Is(t, WAITING) == s.Is(t, WAITING);
  }

  /** A thread that ends its turn is not woken again in the same phase. */
  lemma SyncedWaits(s: Bar, tid: nat)
    requires s.Base() && s.Is(tid, RUNNING)
    ensures var m := Synced(s, tid);
      m.Base() && |AfterWake(m).th| == |m.th| && AfterWake(m).th[tid].state == WAITING
  {
    SyncedKeepsBase(s, tid);
    AfterWakeSpec(Synced(s, tid));
    assert s.ThreadOk(tid);
  }

  /** The barrier object. threadList and runList have MAX_THREADS entries. */
  class BarrierObject {
    const parallelThreads: nat
    const threadList: array<Info>
    const runList: array<nat>
    var runListSize: nat
    var curThreadIdx: nat
    var runningThreads: int
    var leftThreads: int
    var phaseCount: nat

    ghost var at: seq<nat>
    ghost var woken: set<nat>
    ghost var known: set<nat>
    ghost var phases: nat  // completed phases: calls of the scheduler's callback

    ghost predicate Sized()
      reads this
    {
      threadList.Length == runList.Length && runListSize <= runList.Length
    }

    ghost function Snap(): Bar
      requires Sized()
      reads this, threadList, runList
    {
      Bar(parallelThreads, threadList[..], runList[..runListSize], curThreadIdx, runningThreads, leftThreads, at, woken,
          known)
    }

    ghost predicate Valid()
      reads this, threadList, runList
    {
      Sized() && Snap().Stable()
    }

    constructor (parallelThreads: nat, maxThreads: nat, memory: seq<nat>)
      requires parallelThreads > 0 && |memory| == maxThreads  // lastIdx is not initialized
      ensures Valid() && threadList.Length == maxThreads && this.parallelThreads == parallelThreads
      ensures forall t | 0 <= t < maxThreads :: threadList[t].state == OFFLINE
      ensures phases == 0
    {
      this.parallelThreads := parallelThreads;
      threadList := new Info[maxThreads](t requires 0 <= t < |memory| => Info(OFFLINE, 0, memory[t]));
      runList := new nat[maxThreads](_ => 0);
      runListSize, curThreadIdx, runningThreads, leftThreads, phaseCount := 0, 0, 0, 0, 0;
      at, woken, known, phases := memory, {}, {}, 0;
      new;
      assert Snap().InState(RUNNING) == {} && Snap().InState(LEFT) == {};
    }

    method CheckRunList()
      requires Sized() && Snap().Base()
      modifies this`curThreadIdx, this`runningThreads, this`woken, this`known, threadList
      ensures Sized() && Snap() == AfterWake(old(Snap()))
    {
      hide Bar.Base, AfterWake;
      ghost var s0 := Snap();
      while runningThreads < parallelThreads && curThreadIdx < runListSize
        invariant Sized() && Snap().Base()
        invariant AfterWake(Snap()) == AfterWake(s0)
        decreases runListSize - curThreadIdx
      {
        ghost var s := Snap();
        NextInLine(s);
        var idx := curThreadIdx;
        curThreadIdx := curThreadIdx + 1;
        var wtid := runList[idx];
        if threadList[wtid].state == WAITING {
          assert threadList[wtid].futexWord == 1;  // the compare-and-swap succeeds
          threadList[wtid] := Info(RUNNING, 0, idx);
          woken, known := woken + {wtid}, known + {wtid};
          runningThreads := runningThreads + 1;
        }
        assert Snap() == WakeNext(s);
      }
      NobodyInLine(Snap());
    }

    /** One removal of the cleanup pass. */
    method TakeOffline(idx: nat, newSize: nat, ghost s: Bar)
      requires threadList.Length == runList.Length && idx < newSize <= runList.Length
      requires s.Base() && s.th == threadList[..] && s.run == runList[..newSize] && s.at == at && s.known == known
      modifies this`at, this`known, threadList, runList
      ensures var s' := Drop(s, idx);
        threadList[..] == s'.th && runList[..newSize - 1] == s'.run && at == s'.at && known == s'.known
    {
      var wtid := runList[idx];
      threadList[wtid] := threadList[wtid].(state := OFFLINE);
      var stid := runList[newSize - 1];
      runList[idx] := stid;
      threadList[stid] := threadList[stid].(lastIdx := idx);
      at, known := at[stid := idx], known - {wtid};
      assert runList[..newSize - 1] == s.run[idx := stid][..newSize - 1];
    }

    /** The cleanup pass at the end of one phase in 32. */
    method CleanUp()
      requires Sized() && Snap().Base() && curThreadIdx == 0
      modifies this`runListSize, this`leftThreads, this`at, this`known, threadList, runList
      ensures Sized() && Snap() == Cleanup(old(Snap()), 0)
    {
      hide Cleaned, Cleanup, Bar.Base;
      ghost var s0 := Snap();
      CleanupSpec(s0, 0);
      ghost var left := leftThreads;
      ghost var s := s0;
      var idx := 0;
      var newSize := runListSize;
      while idx < newSize
        invariant 0 <= idx <= newSize <= runListSize
        invariant threadList.Length == runList.Length && runListSize <= runList.Length
        invariant s == Bar(parallelThreads, threadList[..], runList[..newSize], 0, runningThreads, left, at, woken,
                            known)
        invariant s.Base() && Cleanup(s, idx) == Cleanup(s0, 0)
        invariant left == leftThreads - (runListSize - newSize)
        decreases newSize - idx
      {
        CleanupNext(s, idx);
        var wtid := runList[idx];
        if threadList[wtid].state == LEFT {
          TakeOffline(idx, newSize, s);
          left := left - 1;
          newSize := newSize - 1;
          s := Drop(s, idx);
        } else {
          idx := idx + 1;
        }
      }
      CleanupEnds(s);
      assert runListSize - newSize == leftThreads;
      leftThreads := 0;
      runListSize := newSize;
    }

    /** Fisher-Yates: every j may be any position up to i. */
    method Shuffle()
      requires Sized() && Snap().Base() && curThreadIdx == 0
      modifies this`at, threadList, runList
      ensures Sized() && Snap().Base() && Cleaned(old(Snap()), Snap())
    {
      var i: int := runListSize - 1;
      while i > 0
        invariant i < runListSize
        invariant Sized() && Snap().Base() && Cleaned(old(Snap()), Snap())
      {
        ghost var s := Snap();
        var j: nat :| j <= i;
        SwapKeepsBase(s, i, j);
        var itid := runList[i];
        var jtid := runList[j];
        runList[i] := jtid;
        runList[j] := itid;
        threadList[itid] := threadList[itid].(lastIdx := j);
        threadList[jtid] := threadList[jtid].(lastIdx := i);
        at := at[itid := j][jtid := i];
        assert Snap() == Swap(s, i, j);
        CleanedTrans(old(Snap()), s, Snap());
        i := i - 1;
      }
    }

    /** Ends the phase if everybody had a turn and somebody is left to have another. */
    method CheckEndPhase()
      requires Sized() && Snap().Base()
      modifies this`curThreadIdx, this`runListSize, this`leftThreads, this`phaseCount, this`at
      modifies this`woken, this`known, this`phases, threadList, runList
      ensures Sized() && Snap().Base()
      ensures var ended := old(curThreadIdx == runListSize && runningThreads == 0 && leftThreads != runListSize);
        if ended then
          && Cleaned(Rewind(old(Snap())), Snap()) && phases == old(phases) + 1
          && phaseCount == (if old(phaseCount) == 0xFFFF_FFFF then 0 else old(phaseCount) + 1)
          && (forall t: nat | t < threadList.Length ::
                threadList[t].state ==
                if old(phaseCount) % 32 == 0 && old(threadList[t].state) == LEFT then OFFLINE
                else old(threadList[t].state))
          && (old(phaseCount) % 32 != 0 && runListSize <= parallelThreads ==>
                Snap() == Rewind(old(Snap())))
        else phases == old(phases) && phaseCount == old(phaseCount) && Snap() == old(Snap())
    {
      if curThreadIdx == runListSize && runningThreads == 0 {
        if leftThreads == runListSize { return; }
        phases := phases + 1;  // sched->callback()
        EndPhase();
      }
    }

    /** Rewinds the list; in one phase of 32 drops those that left; and shuffles it if not all can run at once. */
    method EndPhase()
      requires Sized() && Snap().Base() && runningThreads == 0
      modifies this`curThreadIdx, this`runListSize, this`leftThreads, this`phaseCount, this`at
      modifies this`woken, this`known, threadList, runList
      ensures Sized() && Snap().Base() && Cleaned(Rewind(old(Snap())), Snap())
      ensures phaseCount == if old(phaseCount) == 0xFFFF_FFFF then 0 else old(phaseCount) + 1
      ensures forall t: nat | t < threadList.Length ::
        threadList[t].state ==
        if old(phaseCount) % 32 == 0 && old(threadList[t].state) == LEFT then OFFLINE else old(threadList[t].state)
      ensures old(phaseCount) % 32 != 0 && runListSize <= parallelThreads ==> Snap() == Rewind(old(Snap()))
    {
      ghost var s := Snap();
      RewindKeepsBase(s);
      CleanedSelf(Rewind(s));
      hide Bar.Base, Cleaned, Cleanup;
      curThreadIdx := 0;
      woken := {};
      var cleanup := phaseCount % 32 == 0;
      phaseCount := if phaseCount == 0xFFFF_FFFF then 0 else phaseCount + 1;
      if cleanup {
        CleanupSpec(Snap(), 0);
        CleanUp();
      }
      ghost var m := Snap();
      if parallelThreads < runListSize {
        Shuffle();
        CleanedTrans(Rewind(s), m, Snap());
      }
      CleanedExactly(Rewind(s), Snap(), cleanup);
    }

    method TryWakeNext()
      requires Sized() && Snap().Base()
      modifies this, threadList, runList
      ensures Valid()
      ensures phases == old(phases) + (if PhaseOver(old(Snap())) then 1 else 0)
      ensures !PhaseOver(old(Snap())) ==> Snap() == AfterWake(old(Snap()))
      ensures PhaseOver(old(Snap())) ==> NewPhase(old(Snap()), Snap())
    {
      ghost var s := Snap();
      EndDetected(s);
      AfterWakeSpec(s);
      CheckRunList();
      ghost var m := Snap();
      CheckEndPhase();
      ghost var e := Snap();
      AfterWakeSpec(e);
      CheckRunList();
      if PhaseOver(s) {
        NobodyToWake(s);
        NewPhaseStarts(s, m, e);
      } else {
        StableAfterWake(s);
      }
    }

    /** The first half of join: puts the thread, or puts it back, in line. */
    method Enlist(tid: nat)
      requires Valid() && tid < threadList.Length
      requires threadList[tid].state == OFFLINE || threadList[tid].state == LEFT
      modifies this`runListSize, this`curThreadIdx, this`leftThreads, this`at, threadList, runList
      ensures Sized() && Snap() == Joined(old(Snap()), tid)
    {
      hide Bar.Base;
      if threadList[tid].state == OFFLINE {
        Append(tid);
      } else {
        Rejoin(tid);
      }
    }

    /** A thread that was OFFLINE goes to the end of the run list. */
    method Append(tid: nat)
      requires Sized() && Snap().Base() && tid < threadList.Length && threadList[tid].state == OFFLINE
      modifies this`runListSize, this`at, threadList, runList
      ensures Sized() && Snap() == Joined(old(Snap()), tid)
    {
      ghost var s := Snap();
      SizesAgree(s);
      RoomToJoin(s, tid);
      hide Bar.Base;
      runList[runListSize] := tid;
      at := at[tid := runListSize];
      runListSize := runListSize + 1;
      assert runList[..runListSize] == s.run + [tid];
      threadList[tid] := threadList[tid].(state := WAITING, futexWord := 1);
    }

    /** A thread that left in this phase is next in line again, if it had its turn. */
    method Rejoin(tid: nat)
      requires Sized() && Snap().Base() && tid < threadList.Length && threadList[tid].state == LEFT
      modifies this`curThreadIdx, this`leftThreads, this`at, threadList, runList
      ensures Sized() && Snap() == Joined(old(Snap()), tid)
    {
      ghost var s := Snap();
      FormerPlace(s, tid);
      hide Bar.Base;
      leftThreads := leftThreads - 1;
      var lastIdx := threadList[tid].lastIdx;
      if curThreadIdx > lastIdx {
        curThreadIdx := curThreadIdx - 1;
        assert tid == runList[lastIdx];
        var otherTid := runList[curThreadIdx];
        runList[lastIdx] := otherTid;
        runList[curThreadIdx] := tid;
        assert runList[..runListSize] == s.run[lastIdx := otherTid][curThreadIdx := tid];
        threadList[otherTid] := threadList[otherTid].(lastIdx := lastIdx);
        threadList[tid] := threadList[tid].(lastIdx := curThreadIdx);
        at := at[otherTid := lastIdx][tid := curThreadIdx];
      }
      threadList[tid] := threadList[tid].(state := WAITING, futexWord := 1);
    }

    /** Join from OFFLINE or LEFT. Never ends a phase; the joiner runs at once exactly when a slot is free. */
    method Join(tid: nat)
      requires Valid() && tid < threadList.Length
      requires threadList[tid].state == OFFLINE || threadList[tid].state == LEFT
      modifies this, threadList, runList
      ensures Valid() && phases == old(phases)
      ensures threadList[tid].state == if old(runningThreads) < parallelThreads then RUNNING else WAITING
      ensures forall t | 0 <= t < threadList.Length && t != tid :: threadList[t].state == old(threadList[t].state)
      ensures StillKnown(old(Snap()), Snap())
    {
      ghost var s := Snap();
      JoinNeverEndsPhase(s, tid);
      Enlist(tid);
      TryWakeNext();
    }

    /** Leave, allowed from RUNNING and from WAITING as in the source. From RUNNING it may end the phase. A thread that
        was woken since it was last OFFLINE may leave at any time. Another one leaves the barrier consistent only if its
        remembered position happens to be right. */
    method Leave(tid: nat)
      requires Valid() && tid < threadList.Length
      requires threadList[tid].state == RUNNING || threadList[tid].state == WAITING
      modifies this, threadList, runList
      ensures old(threadList[tid].state) == RUNNING || tid in old(known) ==> Valid()
      ensures Valid() <==> old(Snap().Anchored(tid))
      ensures threadList[tid].state == LEFT || (phases == old(phases) + 1 && threadList[tid].state == OFFLINE)
      ensures phases == old(phases) +
        (if old(threadList[tid].state) == RUNNING && PhaseOver(Departed(old(Snap()), tid)) then 1 else 0)
      ensures Sized() && StillKnown(old(Snap()), Snap())
      ensures OthersKept(old(threadList[..]), threadList[..], tid, phases > old(phases))
      ensures old(threadList[tid].state) == WAITING ==> Snap() == Departed(old(Snap()), tid)
      ensures old(threadList[tid].state) == RUNNING && phases == old(phases) ==>
        Departed(old(Snap()), tid).Base() && Snap() == AfterWake(Departed(old(Snap()), tid))
    {
      ghost var s := Snap();
      DepartedKeepsBase(s, tid);
      hide Bar.Base, PhaseOver, NewPhase, OthersKept, StillKnown;
      if threadList[tid].state == RUNNING {
        threadList[tid] := threadList[tid].(state := LEFT);
        leftThreads := leftThreads + 1;
        runningThreads := runningThreads - 1;
        woken := woken - {tid};
        ghost var m := Departed(s, tid);
        assert Snap() == m;
        TryWakeNext();
        LeaverGoes(s, Snap(), tid);
      } else {
        threadList[tid] := threadList[tid].(state := LEFT);
        leftThreads := leftThreads + 1;
        woken := woken - {tid};
        assert Snap() == Departed(s, tid);
        WaiterLeavesStable(s, tid);
        WaiterGoes(s, tid);
      }
    }

    /** End of the thread's turn. The phase ends exactly when nobody else runs and nobody is left to serve. */
    method Sync(tid: nat)
      requires Valid() && tid < threadList.Length
      requires threadList[tid].state == RUNNING
      modifies this, threadList, runList
      ensures Valid()
      ensures phases == old(phases) + (if old(runningThreads) == 1 && old(Snap().Served()) then 1 else 0)
      ensures threadList[tid].state == WAITING || (phases > old(phases) && threadList[tid].state == RUNNING)
      ensures tid in known && StillKnown(old(Snap()), Snap())
      ensures OthersKept(old(threadList[..]), threadList[..], tid, phases > old(phases))
      ensures phases == old(phases) ==>
        Synced(old(Snap()), tid).Base() && Snap() == AfterWake(Synced(old(Snap()), tid))
    {
      ghost var s := Snap();
      SyncedKeepsBase(s, tid);
      threadList[tid] := threadList[tid].(state := WAITING, futexWord := 1);
      runningThreads := runningThreads - 1;
      ghost var m := Synced(s, tid);
      assert Snap() == m;
      SyncEnds(s, tid);
      AfterWakeSpec(m);
      AfterWakeKnows(m);
      TryWakeNext();
      OthersFollow(s, m, Snap(), tid, PhaseOver(m));
      SyncedWaits(s, tid);
    }
  }
}
