/** The three-valued futex lock of src/locks.h, as a state machine over any number of threads.
    Every shared-memory access and every futex system call is one atomic step. */
module FutexLock {

  const WORD: nat := 0x1_0000_0000  // the lock word is a uint32_t

  /** Fetch-and-add of -1 on an unsigned word, which wraps. */
  function Dec(x: nat): nat { if x == 0 then WORD - 1 else x - 1 }

  /** Where a thread stands in futex_lock, futex_trylock_nospin_timeout or futex_unlock. */
  datatype PC =
    | Out          // not using the lock
    | Try          // about to test the word and compare-and-swap 0 to 1
    | Xchg1        // about to exchange the word with 2, before waiting
    | CallWait     // about to enter FUTEX_WAIT
    | Asleep       // in the kernel's wait queue
    | Xchg2        // about to exchange the word with 2, after waiting
    | Holding      // in the critical section
    | Clear        // in futex_unlock: saw a value other than 1, about to store 0
    | Wake         // in futex_unlock: about to wake one sleeper

  datatype Thread = Thread(pc: PC, timed: bool)

  /** The lock word, the threads, and two pieces of history that no step looks at: whether the last acquisition was by
      exchange, and whether a timed thread has given up since. */
  datatype State = State(word: nat, threads: seq<Thread>, byExchange: bool, gaveUp: bool)
  {
    predicate At(t: nat, pc: PC) {
      t < |threads| && threads[t].pc == pc
    }

    /** Holds the lock: Clear belongs here, since nobody can acquire before 0 is stored. */
    predicate Owns(t: nat) {
      t < |threads| && (threads[t].pc.Holding? || threads[t].pc.Clear?)
    }

    predicate HasWaiters() {
      word == 2
    }

    function Go(t: nat, pc: PC): State
      requires t < |threads|
    {
      this.(threads := threads[t := threads[t].(pc := pc)])
    }

    function Put(w: nat): State {
      this.(word := w)
    }

    function Acquired(t: nat, byExchange: bool): State
      requires t < |threads|
    {
      Go(t, Holding).(byExchange := byExchange, gaveUp := false)
    }

    /** Somewhere in an acquisition. */
    predicate InLoop(t: nat) {
      && t < |threads|
      && match threads[t].pc
         case Try => true
         case Xchg1 => true
         case CallWait => true
         case Asleep => true
         case Xchg2 => true
         case _ => false
    }
  }

  ghost predicate Init(s: State) {
    s.word == 0 && !s.byExchange && !s.gaveUp && forall t | 0 <= t < |s.threads| :: s.threads[t].pc == Out
  }

  /** One atomic step of thread t. */
  ghost predicate Step(s: State, t: nat, s': State)
  {
    t < |s.threads| &&
    match s.threads[t].pc
    case Out =>  // a blocking or a timed acquisition starts
      exists timed: bool ::
        s' == s.(threads := s.threads[t := Thread(Try, timed)])
    case Try =>
      if s.word == 0 then s' == s.Put(1).Acquired(t, false)
      else s' == s.Go(t, Xchg1) || (!s.threads[t].timed && s' == s)  // keep spinning
    case Xchg1 =>
      s' == if s.word == 0 then s.Put(2).Acquired(t, true) else s.Put(2).Go(t, CallWait)
    case CallWait =>  // the kernel compares the word with 2 and queues the thread atomically
      s' == s.Go(t, if s.word == 2 then Asleep else Xchg2)
    case Asleep =>    // timeout, signal or spurious return
      s' == s.Go(t, Xchg2)
    case Xchg2 =>
      s' == if s.word == 0 then s.Put(2).Acquired(t, true)
            else if s.threads[t].timed then s.Put(2).Go(t, Out).(gaveUp := true)
            else s.Put(2).Go(t, Try)
    case Holding =>   // atomic decrement; the old value decides
      s' == s.Put(Dec(s.word)).Go(t, if s.word != 1 then Clear else Out)
    case Clear =>
      s' == s.Put(0).Go(t, Wake)
    case Wake =>
      || (exists u: nat :: s.At(u, Asleep) && s' == s.Go(u, Xchg2).Go(t, Out))
      || ((forall u: nat :: !s.At(u, Asleep)) && s' == s.Go(t, Out))
  }

  ghost predicate Next(s: State, s': State)
  {
    exists t: nat :: Step(s, t, s')
  }

  ghost predicate Run(run: seq<State>)
  {
    |run| > 0 && Init(run[0]) &&
    forall i :: 0 < i < |run| ==> Next(run[i - 1], run[i])
  }

  /** What every reachable state satisfies. */
  ghost predicate Inv(s: State)
  {
    && s.word <= 2
    && (forall t: nat, u: nat :: s.Owns(t) && s.Owns(u) ==> t == u)
    && (s.word != 0 <==> exists t: nat :: s.Owns(t))
    && (forall t: nat :: s.At(t, Asleep) ==> WakeAssured(s))
  }

  /** A sleeper is not forgotten: its holder will take the waking path, or a wake-up is owed,
      or a thread that already woke has yet to mark the word contended again. */
  ghost predicate WakeAssured(s: State)
  {
    || s.word == 2
    || (exists u: nat :: s.At(u, Clear) || s.At(u, Wake))
    || (exists u: nat :: s.At(u, Xchg2))
  }

  lemma WakeKeepsOwners(s: State, t: nat, s': State)
    requires s.At(t, Wake) && Step(s, t, s')
    ensures s'.word == s.word && forall v: nat :: s'.Owns(v) == s.Owns(v)
  {
  }

  lemma WakeStepKeeps(s: State, t: nat, s': State)
    requires Inv(s) && s.At(t, Wake) && Step(s, t, s')
    ensures Inv(s')
  {
    WakeKeepsOwners(s, t, s');
    if u: nat :| s.At(u, Asleep) && s' == s.Go(u, Xchg2).Go(t, Out) {
      assert s'.At(u, Xchg2);
    } else {
      assert forall v: nat :: s'.At(v, Asleep) ==> s.At(v, Asleep);
    }
  }

  /** The other threads stand where they stood. */
  lemma Others(s: State, t: nat, s': State)
    requires Step(s, t, s') && !s.At(t, Wake)
    ensures |s'.threads| == |s.threads| > t
    ensures forall u: nat | u != t :: u < |s.threads| ==> s'.threads[u] == s.threads[u]
    ensures forall u: nat, pc: PC | u != t :: s'.At(u, pc) == s.At(u, pc)
    ensures forall u: nat | u != t :: s'.Owns(u) == s.Owns(u)
  {
  }

  lemma OwnershipKept(s: State, t: nat, s': State)
    requires Inv(s) && Step(s, t, s') && !s.At(t, Wake)
    ensures s'.word <= 2
    ensures forall a: nat, b: nat :: s'.Owns(a) && s'.Owns(b) ==> a == b
    ensures s'.word != 0 <==> exists a: nat :: s'.Owns(a)
  {
    Others(s, t, s');
    if s.Owns(t) {
      assert s.word != 0;
      assert forall u: nat | u != t :: !s'.Owns(u);
      assert s'.Owns(t) <==> s'.word != 0;
    } else if s.word == 0 {
      assert forall u: nat :: !s.Owns(u);
      assert s'.Owns(t) <==> s'.word != 0;
    } else {
      var o: nat :| s.Owns(o);
      assert s'.Owns(o) && !s'.Owns(t);
    }
  }

  lemma WakeAssuredKept(s: State, t: nat, s': State)
    requires Inv(s) && Step(s, t, s') && !s.At(t, Wake)
    requires exists a: nat :: s'.At(a, Asleep)
    ensures WakeAssured(s')
  {
    Others(s, t, s');
    var a: nat :| s'.At(a, Asleep);
    if s.At(t, CallWait) || s.At(t, Xchg1) || s.At(t, Xchg2) {
      assert s'.word == 2 || s'.At(t, Xchg2) || s.At(t, CallWait);
    } else if s.At(t, Asleep) {
      assert s'.At(t, Xchg2);
    } else if s.At(t, Clear) {
      assert s'.At(t, Wake);
    } else if s.At(t, Holding) && s.word == 2 {
      assert s'.At(t, Clear);
    } else {
      // Out, Try, or releasing an uncontended word: what assured the sleeper is another thread's doing
      assert a != t && s.At(a, Asleep);
      if u: nat :| s.At(u, Clear) || s.At(u, Wake) || s.At(u, Xchg2) {
        assert u != t && (s'.At(u, Clear) || s'.At(u, Wake) || s'.At(u, Xchg2));
      }
    }
  }

  lemma StepKeepsInv(s: State, t: nat, s': State)
    requires Inv(s) && Step(s, t, s')
    ensures Inv(s')
  {
    if s.At(t, Wake) {
      WakeStepKeeps(s, t, s');
    } else {
      OwnershipKept(s, t, s');
      if exists a: nat :: s'.At(a, Asleep) {
        WakeAssuredKept(s, t, s');
      }
    }
  }

  lemma {:induction false} RunKeepsInv(run: seq<State>, k: nat)
    requires Run(run) && k < |run|
    ensures Inv(run[k])
  {
    if k > 0 {
      RunKeepsInv(run, k - 1);
      var t: nat :| Step(run[k - 1], t, run[k]);
      StepKeepsInv(run[k - 1], t, run[k]);
    }
  }

  /** At most one thread is ever in the critical section. */
  lemma MutualExclusion(run: seq<State>, k: nat, t: nat, u: nat)
    requires Run(run) && k < |run|
    requires run[k].At(t, Holding) && run[k].At(u, Holding)
    ensures t == u
  {
    RunKeepsInv(run, k);
    assert run[k].Owns(t) && run[k].Owns(u);
  }

  /** No wake-up is lost: a sleeper always has a holder bound to wake somebody, an owed wake-up, or an awake
      contender. */
  lemma NoLostWakeup(run: seq<State>, k: nat, t: nat)
    requires Run(run) && k < |run| && run[k].At(t, Asleep)
    ensures
      || (run[k].word == 2 && exists u: nat :: run[k].Owns(u))
      || (exists u: nat :: run[k].At(u, Clear) || run[k].At(u, Wake) || run[k].At(u, Xchg2))
  {
    RunKeepsInv(run, k);
  }

  /** So the lock never wedges: while one thread sleeps, another one, awake, can move. */
  lemma SleeperIsNeverAlone(run: seq<State>, k: nat, t: nat)
    requires Run(run) && k < |run| && run[k].At(t, Asleep)
    ensures exists u: nat, s': State :: u != t && !run[k].At(u, Asleep) && !run[k].At(u, Out) && Step(run[k], u, s')
  {
    RunKeepsInv(run, k);
    NoLostWakeup(run, k, t);
    var s := run[k];
    assert forall u: nat :: s.At(u, Clear) ==> s.Owns(u);
    var u: nat :| s.Owns(u) || s.At(u, Wake) || s.At(u, Xchg2);
    AwakeThreadMoves(s, t, u);
  }

  lemma AwakeThreadMoves(s: State, t: nat, u: nat)
    requires s.At(t, Asleep)
    requires s.Owns(u) || s.At(u, Wake) || s.At(u, Xchg2)
    ensures exists s': State :: Step(s, u, s')
  {
    match s.threads[u].pc
    case Wake => assert Step(s, u, s.Go(t, Xchg2).Go(u, Out));
    case Xchg2 =>
      assert Step(s, u, if s.word == 0 then s.Put(2).Acquired(u, true)
                        else if s.threads[u].timed then s.Put(2).Go(u, Out).(gaveUp := true)
                        else s.Put(2).Go(u, Try));
    case Clear => assert Step(s, u, s.Put(0).Go(u, Wake));
    case Holding => assert Step(s, u, s.Put(Dec(s.word)).Go(u, if s.word != 1 then Clear else Out));
  }

  /** A release is a real release: the word is 0 once the holder is past its last store and nobody barged in. */
  lemma FreeWordMeansNoOwner(run: seq<State>, k: nat)
    requires Run(run) && k < |run|
    ensures run[k].word == 0 <==> forall t: nat :: !run[k].At(t, Holding) && !run[k].At(t, Clear)
  {
    RunKeepsInv(run, k);
    assert forall t: nat :: run[k].Owns(t) <==> run[k].At(t, Holding) || run[k].At(t, Clear);
  }

  // ---- futex_haswaiters

  /** What the word tells a holder. */
  ghost predicate WordOk(s: State) {
    (exists h: nat :: s.At(h, Holding)) ==>
      && (s.byExchange || s.gaveUp ==> s.HasWaiters())
      && (s.HasWaiters() ==> s.byExchange || s.gaveUp || exists u: nat :: s.InLoop(u))
  }

  lemma StepKeepsWordOk(s: State, t: nat, s': State)
    requires Inv(s) && WordOk(s) && Step(s, t, s')
    ensures WordOk(s')
  {
    if h: nat :| s'.At(h, Holding) {
      if s.At(t, Wake) {
        WakeKeepsWordOk(s, t, s');
      } else if h != t {
        OtherKeepsWordOk(s, t, s', h);
      }
    }
  }

  lemma WakeKeepsWordOk(s: State, t: nat, s': State)
    requires WordOk(s) && s.At(t, Wake) && Step(s, t, s')
    ensures WordOk(s')
  {
    assert forall h: nat :: s'.At(h, Holding) ==> s.At(h, Holding);
    assert forall u: nat :: s.InLoop(u) ==> s'.InLoop(u);
  }

  lemma OtherKeepsWordOk(s: State, t: nat, s': State, h: nat)
    requires Inv(s) && WordOk(s) && Step(s, t, s') && !s.At(t, Wake) && h != t && s'.At(h, Holding)
    ensures WordOk(s')
  {
    Others(s, t, s');
    assert s.At(h, Holding) && s.Owns(h) && !s.Owns(t) && s.word != 0;
    if u: nat :| s.InLoop(u) && u != t {
      assert s'.InLoop(u);
    }
    assert s'.InLoop(t) || s'.gaveUp;
  }

  lemma {:induction false} RunKeepsWordOk(run: seq<State>, k: nat)
    requires Run(run) && k < |run|
    ensures WordOk(run[k])
  {
    if k > 0 {
      RunKeepsWordOk(run, k - 1);
      RunKeepsInv(run, k - 1);
      var t: nat :| Step(run[k - 1], t, run[k]);
      StepKeepsWordOk(run[k - 1], t, run[k]);
    }
  }

  /** futex_haswaiters promises a holder "no false positives". It gives one, with nobody else in any acquisition,
      exactly if the holder acquired by exchange, or a timed thread has given up since it acquired. */
  lemma HasWaitersIsFalse(run: seq<State>, k: nat, h: nat)
    requires Run(run) && k < |run| && run[k].At(h, Holding) && forall u: nat :: !run[k].InLoop(u)
    ensures run[k].HasWaiters() <==> run[k].byExchange || run[k].gaveUp
  {
    RunKeepsWordOk(run, k);
  }

  /** With blocking acquisitions only, nobody gives up, so only the way of acquiring matters. */
  lemma {:induction false} UntimedNeverGiveUp(run: seq<State>, k: nat)
    requires Run(run) && k < |run|
    requires forall i, t | 0 <= i < |run| && 0 <= t < |run[i].threads| :: !run[i].threads[t].timed
    ensures !run[k].gaveUp
  {
    if k > 0 {
      UntimedNeverGiveUp(run, k - 1);
      var t: nat :| Step(run[k - 1], t, run[k]);
    }
  }

  /** Such a run: thread 1 announces itself just as thread 0 releases, and then acquires by exchange. */
  lemma HasWaitersFalsePositive() returns (run: seq<State>)
    ensures Run(run)
    ensures var s := run[|run| - 1];
      s.HasWaiters() && |s.threads| == 2 && s.At(1, Holding) && s.At(0, Out) && s.byExchange && !s.gaveUp
  {
    var s0 := State(0, [Thread(Out, false), Thread(Out, false)], false, false);
    run := [s0];
    var s1 := s0.Go(0, Try);
    assert s1 == s0.(threads := s0.threads[0 := Thread(Try, false)]);
    run := Extend(run, 0, s1);
    var s2 := s1.Put(1).Acquired(0, false);
    run := Extend(run, 0, s2);
    var s3 := s2.Go(1, Try);
    assert s3 == s2.(threads := s2.threads[1 := Thread(Try, false)]);
    run := Extend(run, 1, s3);
    var s4 := s3.Go(1, Xchg1);
    run := Extend(run, 1, s4);
    var s5 := s4.Put(2).Go(1, CallWait);
    run := Extend(run, 1, s5);
    run := ReleaseBeforeWait(run);
  }

  lemma Extend(run: seq<State>, t: nat, s': State) returns (run': seq<State>)
    requires Run(run) && Step(run[|run| - 1], t, s')
    ensures Run(run') && run'[|run'| - 1] == s'
  {
    run' := run + [s'];
  }

  lemma ReleaseBeforeWait(run: seq<State>) returns (run': seq<State>)
    requires Run(run)
    requires run[|run| - 1] == State(2, [Thread(Holding, false), Thread(CallWait, false)], false, false)
    ensures Run(run') && run'[|run'| - 1] == State(2, [Thread(Out, false), Thread(Holding, false)], true, false)
  {
    var s5 := run[|run| - 1];
    var s6 := s5.Put(1).Go(0, Clear);
    run' := Extend(run, 0, s6);
    var s7 := s6.Put(0).Go(0, Wake);
    run' := Extend(run', 0, s7);
    var s8 := s7.Go(0, Out);
    run' := Extend(run', 0, s8);
    var s9 := s8.Go(1, Xchg2);
    run' := Extend(run', 1, s9);
    var s10 := s9.Put(2).Acquired(1, true);
    run' := Extend(run', 1, s10);
  }

  /** The other cause: thread 1 waits with a timeout and gives up, and thread 0, which acquired the free word, is told
      of somebody who is gone. */
  lemma HasWaitersAfterTimeout() returns (run: seq<State>)
    ensures Run(run)
    ensures var s := run[|run| - 1];
      s.HasWaiters() && |s.threads| == 2 && s.At(0, Holding) && s.At(1, Out) && !s.byExchange && s.gaveUp
  {
    var s0 := State(0, [Thread(Out, false), Thread(Out, false)], false, false);
    run := [s0];
    var s1 := s0.Go(0, Try);
    assert s1 == s0.(threads := s0.threads[0 := Thread(Try, false)]);
    run := Extend(run, 0, s1);
    var s2 := s1.Put(1).Acquired(0, false);
    run := Extend(run, 0, s2);
    var s3 := s2.(threads := s2.threads[1 := Thread(Try, true)]);
    run := Extend(run, 1, s3);
    var s4 := s3.Go(1, Xchg1);
    run := Extend(run, 1, s4);
    var s5 := s4.Put(2).Go(1, CallWait);
    run := Extend(run, 1, s5);
    run := WaitsAndGivesUp(run);
  }

  lemma WaitsAndGivesUp(run: seq<State>) returns (run': seq<State>)
    requires Run(run)
    requires run[|run| - 1] == State(2, [Thread(Holding, false), Thread(CallWait, true)], false, false)
    ensures Run(run') && run'[|run'| - 1] == State(2, [Thread(Holding, false), Thread(Out, true)], false, true)
  {
    var s5 := run[|run| - 1];
    var s6 := s5.Go(1, Asleep);
    run' := Extend(run, 1, s6);
    var s7 := s6.Go(1, Xchg2);
    run' := Extend(run', 1, s7);
    var s8 := s7.Put(2).Go(1, Out).(gaveUp := true);
    run' := Extend(run', 1, s8);
  }
}
