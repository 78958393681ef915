/** The fair read-write mutex of src/mutex.h, as a state machine over any number of threads.
    Its two inner mutexes `wq` and `rb` are atomic here: locking takes a free one, and any thread may unlock.
    `readers` is a uint32_t changed by atomic fetch-and-add. */
module RwMutex {
  import opened Sets

  const WORD: nat := 0x1_0000_0000

  /** Fetch-and-add of 1 and of -1 on an unsigned word, which wrap. */
  function Inc(x: nat): nat { if x == WORD - 1 then 0 else x + 1 }
  function Dec(x: nat): nat { if x == 0 then WORD - 1 else x - 1 }

  /** Program points. R: in rdLock, W: in wrLock. */
  datatype PC =
    | Idle
    | RWantRb        // rdLock: about to lock rb
    | RAdd           // rdLock: holds rb, about to add 1 to readers
    | RWantWq        // rdLock: first reader, holds rb, about to lock wq
    | RDone          // rdLock: admitted, about to release rb
    | Reading
    | ULast          // rdUnlock: was the last reader, about to unlock wq
    | WWantRb        // wrLock: about to lock rb
    | WWantWq        // wrLock: holds rb, about to lock wq
    | WDone          // wrLock: admitted, about to release rb
    | Writing
    | DHandOver      // downgrade: a reader is waiting on wq, about to unlock wq

  datatype State = State(rb: bool, wq: bool, readers: nat, pc: seq<PC>)
  {
    predicate At(t: nat, p: PC) {
      t < |pc| && pc[t] == p
    }
    predicate HoldsRb(t: nat) {
      t < |pc| && (pc[t].RAdd? || pc[t].RWantWq? || pc[t].RDone? || pc[t].WWantWq? || pc[t].WDone?)
    }
    /** Included in `readers`. */
    predicate Counted(t: nat) {
      t < |pc| && (pc[t].RWantWq? || pc[t].RDone? || pc[t].Reading? || pc[t].DHandOver?)
    }
    /** A reader that was let in. */
    predicate Admitted(t: nat) {
      t < |pc| && (pc[t].RDone? || pc[t].Reading?)
    }
    /** Owns wq alone: a writer, or the last reader on its way out. */
    predicate OwnsWq(t: nat) {
      t < |pc| && (pc[t].WDone? || pc[t].Writing? || pc[t].DHandOver? || pc[t].ULast?)
    }
    function CountedSet(): set<nat> {
      set t: nat | t < |pc| && Counted(t)
    }
    function Go(t: nat, p: PC): State
      requires t < |pc|
    {
      this.(pc := pc[t := p])
    }
  }

  ghost predicate Init(s: State) {
    !s.rb && !s.wq && s.readers == 0 && |s.pc| < WORD && forall t | 0 <= t < |s.pc| :: s.pc[t] == Idle
  }

  /** One atomic step of thread t; the locking steps are disabled while the mutex is taken. */
  ghost predicate Step(s: State, t: nat, s': State)
  {
    t < |s.pc| &&
    match s.pc[t]
    case Idle => s' == s.Go(t, RWantRb) || s' == s.Go(t, WWantRb)
    case RWantRb => !s.rb && s' == s.(rb := true).Go(t, RAdd)
    case RAdd =>
      s' == s.(readers := Inc(s.readers)).Go(t, if s.readers == 0 then RWantWq else RDone)
    case RWantWq => !s.wq && s' == s.(wq := true).Go(t, RDone)
    case RDone => s' == s.(rb := false).Go(t, Reading)
    case Reading =>  // rdUnlock
      s' == s.(readers := Dec(s.readers)).Go(t, if s.readers == 1 then ULast else Idle)
    case ULast => s' == s.(wq := false).Go(t, Idle)
    case WWantRb => !s.rb && s' == s.(rb := true).Go(t, WWantWq)
    case WWantWq => !s.wq && s' == s.(wq := true).Go(t, WDone)
    case WDone => s' == s.(rb := false).Go(t, Writing)
    case Writing =>  // wrUnlock, or the fetch-and-add of downgrade
      || s' == s.(wq := false).Go(t, Idle)
      || s' == s.(readers := Inc(s.readers)).Go(t, if s.readers == 0 then Reading else DHandOver)
    case DHandOver => s' == s.(wq := false).Go(t, Reading)
  }

  ghost predicate Next(s: State, s': State) {
    exists t: nat :: Step(s, t, s')
  }

  ghost predicate Run(run: seq<State>)
  {
    |run| > 0 && Init(run[0]) &&
    forall i :: 0 < i < |run| ==> Next(run[i - 1], run[i])
  }

  ghost predicate GroupInv(s: State)
  {
    if s.wq then
      (exists t: nat :: s.OwnsWq(t)) || ((exists t: nat :: s.Admitted(t)) && forall t: nat :: !s.At(t, RWantWq))
    else  // admitted readers with wq free: only after a downgrade, while the waiting first reader pins rb
      (exists t: nat :: s.Admitted(t)) ==> exists t: nat :: s.At(t, RWantWq)
  }

  ghost predicate Inv(s: State)
  {
    && |s.pc| < WORD
    && s.readers == |s.CountedSet()|
    // rb: locked exactly when some thread holds it, and then by one thread
    && (forall t: nat, u: nat :: s.HoldsRb(t) && s.HoldsRb(u) ==> t == u)
    && (s.rb <==> exists t: nat :: s.HoldsRb(t))
    // wq: a lone owner excludes admitted readers and other owners
    && WqInv(s)
    // wq without a lone owner is held for the group of admitted readers
    && GroupInv(s)
    // a writer hands wq over only to a waiting first reader
    && (forall t: nat :: s.At(t, DHandOver) ==> exists u: nat :: s.At(u, RWantWq))
  }

  lemma CountedBound(s: State)
    ensures |s.CountedSet()| <= |s.pc|
  {
    SubsetSize(s.CountedSet(), Below(|s.pc|));
  }

  /** Only thread t moves. */
  lemma OnlyMover(s: State, t: nat, s': State)
    requires Step(s, t, s')
    ensures t < |s.pc| && s'.pc == s.pc[t := s'.pc[t]]
  {
  }

  lemma CountedSetChange(s: State, t: nat, s': State)
    requires Step(s, t, s')
    ensures |s'.pc| == |s.pc|
    ensures |s'.CountedSet()| == |s.CountedSet()| - (if s.Counted(t) then 1 else 0) + (if s'.Counted(t) then 1 else 0)
  {
    OnlyMover(s, t, s');
    assert forall u: nat | u != t :: s'.Counted(u) == s.Counted(u);
    AgreeExcept(s.CountedSet(), s'.CountedSet(), t);
  }

  /** `readers` counts threads, so the fetch-and-add never wraps. */
  lemma CountedChange(s: State, t: nat, s': State)
    requires |s.pc| < WORD && s.readers == |s.CountedSet()| && Step(s, t, s')
    ensures s'.readers == |s'.CountedSet()|
  {
    CountedSetChange(s, t, s');
    CountedBound(s);
    CountedBound(s');
  }

  lemma Others(s: State, t: nat, s': State)
    requires Step(s, t, s')
    ensures |s'.pc| == |s.pc| > t
    ensures forall u: nat, p: PC | u != t :: s'.At(u, p) == s.At(u, p)
    ensures forall u: nat | u != t ::
      s'.HoldsRb(u) == s.HoldsRb(u) && s'.OwnsWq(u) == s.OwnsWq(u) && s'.Admitted(u) == s.Admitted(u)
  {
    OnlyMover(s, t, s');
  }

  lemma RbKept(s: State, t: nat, s': State)
    requires Inv(s) && Step(s, t, s')
    ensures forall a: nat, b: nat :: s'.HoldsRb(a) && s'.HoldsRb(b) ==> a == b
    ensures s'.rb <==> exists a: nat :: s'.HoldsRb(a)
  {
    Others(s, t, s');
    if s.HoldsRb(t) || s'.HoldsRb(t) {
      assert forall u: nat | u != t :: !s'.HoldsRb(u);
      assert s'.rb <==> s'.HoldsRb(t);
    } else if s.rb {
      var o: nat :| s.HoldsRb(o);
      assert s'.HoldsRb(o);
    }
  }

  /** The last reader really is alone, so wq is held on behalf of the readers and may be released. */
  lemma LastReader(s: State, t: nat)
    requires Inv(s) && s.At(t, Reading) && s.readers == 1
    ensures s.wq
    ensures forall u: nat :: !s.OwnsWq(u) && !s.At(u, RWantWq)
    ensures forall u: nat :: s.Admitted(u) ==> u == t
  {
    assert s.Counted(t) && t in s.CountedSet();
    Singleton(s.CountedSet(), t);
    forall u: nat | s.Counted(u) ensures u == t {
      assert u in s.CountedSet();
    }
    assert s.Admitted(t);
    assert forall u: nat :: s.At(u, RWantWq) || s.Admitted(u) ==> s.Counted(u);
  }

  /** A downgrading writer finds no reader counted, or exactly one, waiting on wq. */
  lemma DowngradeSees(s: State, t: nat)
    requires Inv(s) && s.At(t, Writing)
    ensures s.readers <= 1
    ensures s.readers == 0 <==> forall u: nat :: !s.At(u, RWantWq)
  {
    assert s.OwnsWq(t);
    forall u: nat | s.Counted(u) ensures s.At(u, RWantWq) {
      assert s.At(u, DHandOver) ==> s.OwnsWq(u);
      assert !s.Admitted(u);
    }
    if u: nat :| s.At(u, RWantWq) {
      forall v: nat | v in s.CountedSet() ensures v == u {
        assert s.HoldsRb(u) && s.HoldsRb(v);
      }
      assert s.Counted(u);
      assert s.CountedSet() == {u};
    } else {
      assert s.CountedSet() == {};
    }
  }

  ghost predicate WqInv(s: State)
  {
    && (forall t: nat, u: nat :: s.OwnsWq(t) && s.OwnsWq(u) ==> t == u)
    && (forall t: nat, u: nat :: s.OwnsWq(t) ==> !s.Admitted(u))
    && (forall t: nat :: s.OwnsWq(t) ==> s.wq)
  }

  /** No thread but t owns wq alone. */
  ghost predicate OnlyOwner(s: State, t: nat) {
    forall u: nat :: s.OwnsWq(u) ==> u == t
  }

  ghost predicate OnlyAdmitted(s: State, t: nat) {
    forall u: nat :: s.Admitted(u) ==> u == t
  }

  lemma WqInvFrom(s: State, t: nat, s': State)
    requires WqInv(s) && Step(s, t, s')
    requires s'.OwnsWq(t) ==> s'.wq && OnlyOwner(s, t) && OnlyAdmitted(s, t)
    requires s'.Admitted(t) || !s'.wq ==> OnlyOwner(s, t)
    ensures WqInv(s')
  {
    Others(s, t, s');
    assert forall u: nat :: s'.OwnsWq(u) && u != t ==> s.OwnsWq(u) && s'.wq;
  }

  lemma WqKept(s: State, t: nat, s': State)
    requires Inv(s) && Step(s, t, s')
    ensures WqInv(s')
  {
    match s.pc[t]
    case Reading =>
      assert s.Admitted(t);
      if s.readers == 1 { LastReader(s, t); }
      WqInvFrom(s, t, s');
    case RAdd =>
      NewReader(s, t);
      WqInvFrom(s, t, s');
    case RWantWq =>
      FreeWq(s, t);
      WqInvFrom(s, t, s');
    case WWantWq =>
      FreeWq(s, t);
      WqInvFrom(s, t, s');
    case Writing =>
      assert s.OwnsWq(t);
      DowngradeSees(s, t);
      WqInvFrom(s, t, s');
    case RDone =>
      assert s.Admitted(t);
      WqInvFrom(s, t, s');
    case _ =>
      assert s'.OwnsWq(t) ==> s.OwnsWq(t);
      assert s.At(t, DHandOver) || s.At(t, ULast) ==> s.OwnsWq(t);
      WqInvFrom(s, t, s');
  }

  lemma HandOverKept(s: State, t: nat, s': State)
    requires Inv(s) && Step(s, t, s')
    ensures forall a: nat :: s'.At(a, DHandOver) ==> exists u: nat :: s'.At(u, RWantWq)
  {
    Others(s, t, s');
    if s.At(t, Writing) {
      DowngradeSees(s, t);
      assert forall u: nat :: s.At(u, RWantWq) ==> s'.At(u, RWantWq);
    } else if s.At(t, RWantWq) {
      assert forall u: nat :: s'.At(u, DHandOver) ==> s.OwnsWq(u);
    } else {
      assert forall u: nat :: s.At(u, RWantWq) ==> s'.At(u, RWantWq);
      assert forall u: nat :: s'.At(u, DHandOver) ==> s.At(u, DHandOver);
    }
  }

  /** A reader past the fetch-and-add that found others counted was rightly let in. */
  lemma NewReader(s: State, t: nat)
    requires Inv(s) && s.At(t, RAdd)
    ensures forall u: nat :: !s.At(u, RWantWq) && !s.At(u, DHandOver)
    ensures s.readers > 0 ==> (forall u: nat :: !s.OwnsWq(u)) && s.wq && exists u: nat :: s.Admitted(u)
    ensures s.readers == 0 ==> forall u: nat :: !s.Admitted(u)
  {
    assert s.HoldsRb(t);
    assert forall u: nat :: s.At(u, RWantWq) ==> s.HoldsRb(u);
    if s.readers > 0 {
      assert s.CountedSet() != {};
      var u: nat :| u in s.CountedSet();
      assert s.Counted(u) && !s.At(u, RWantWq) && !s.At(u, DHandOver);
      assert s.Admitted(u);
    } else {
      assert s.CountedSet() == {};
      assert forall u: nat :: s.Admitted(u) ==> s.Counted(u);
      assert forall u: nat :: s.Counted(u) ==> u in s.CountedSet();
    }
  }

  /** Whoever takes wq takes it from nobody; and it can only be the holder of rb. */
  lemma FreeWq(s: State, t: nat)
    requires Inv(s) && !s.wq && (s.At(t, RWantWq) || s.At(t, WWantWq))
    ensures forall u: nat :: !s.OwnsWq(u)
    ensures s.At(t, WWantWq) ==> forall u: nat :: !s.Admitted(u)
  {
    if s.At(t, WWantWq) {
      forall u: nat ensures !s.Admitted(u) {
        if s.Admitted(u) {
          var r: nat :| s.At(r, RWantWq);
          assert s.HoldsRb(r) && s.HoldsRb(t);
        }
      }
    }
  }

  lemma GroupKept(s: State, t: nat, s': State)
    requires Inv(s) && Step(s, t, s')
    ensures GroupInv(s')
  {
    Others(s, t, s');
    match s.pc[t]
    case Reading => ReaderLeaves(s, t, s');
    case RAdd =>
      NewReader(s, t);
      if s.readers > 0 { assert s'.Admitted(t); }
      else { assert s'.At(t, RWantWq); if s.wq { var o: nat :| s.OwnsWq(o); assert s'.OwnsWq(o); } }
    case RWantWq =>
      assert s'.Admitted(t);
      forall a: nat ensures !s'.At(a, RWantWq) {
        if s'.At(a, RWantWq) { assert s.HoldsRb(a) && s.HoldsRb(t); }
      }
    case RDone =>
      assert s.Admitted(t) && s'.Admitted(t);
      if !s.wq { var r: nat :| s.At(r, RWantWq); assert s.HoldsRb(r) && s.HoldsRb(t); }
    case WWantWq => assert s'.OwnsWq(t);
    case WDone => assert s.OwnsWq(t) && s'.OwnsWq(t);
    case Writing => WriterLeaves(s, t, s');
    case DHandOver =>
      assert s.At(t, DHandOver);
      var r: nat :| s.At(r, RWantWq);
      assert s'.At(r, RWantWq);
    case ULast =>
      assert s.OwnsWq(t);
    case _ => OutsiderMoves(s, t, s');
  }

  lemma OutsiderMoves(s: State, t: nat, s': State)
    requires Inv(s) && Step(s, t, s')
    requires s.At(t, Idle) || s.At(t, RWantRb) || s.At(t, WWantRb)
    ensures GroupInv(s')
  {
    Others(s, t, s');
    assert forall u: nat ::
      s'.OwnsWq(u) == s.OwnsWq(u) && s'.Admitted(u) == s.Admitted(u) && s'.At(u, RWantWq) == s.At(u, RWantWq);
  }

  lemma WriterLeaves(s: State, t: nat, s': State)
    requires Inv(s) && Step(s, t, s') && s.At(t, Writing)
    ensures GroupInv(s')
  {
    Others(s, t, s');
    assert s.OwnsWq(t);
    DowngradeSees(s, t);
    assert forall u: nat | u != t :: !s'.Admitted(u);
    if s'.At(t, DHandOver) {
      assert s'.OwnsWq(t);
    } else if s'.At(t, Reading) {
      assert s'.Admitted(t);
    }
  }

  lemma ReaderLeaves(s: State, t: nat, s': State)
    requires Inv(s) && Step(s, t, s') && s.At(t, Reading)
    ensures GroupInv(s')
  {
    Others(s, t, s');
    assert s.Admitted(t) && s.Counted(t) && t in s.CountedSet();
    if s.readers == 1 {
      LastReader(s, t);
      assert s'.OwnsWq(t);
    } else if s.wq {
      // somebody else is counted, and it is an admitted reader
      assert |s.CountedSet() - {t}| == |s.CountedSet()| - 1;
      var u: nat :| u in s.CountedSet() - {t};
      assert s.Counted(u) && !s.At(u, RWantWq) && (s.At(u, DHandOver) ==> s.OwnsWq(u));
      assert s.Admitted(u);
      assert s'.Admitted(u);
    } else {
      var r: nat :| s.At(r, RWantWq);
      assert s'.At(r, RWantWq);
    }
  }

  lemma StepKeepsInv(s: State, t: nat, s': State)
    requires Inv(s) && Step(s, t, s')
    ensures Inv(s')
  {
    Others(s, t, s');
    CountedChange(s, t, s');
    RbKept(s, t, s');
    WqKept(s, t, s');
    HandOverKept(s, t, s');
    GroupKept(s, t, s');
  }

  lemma InitInv(s: State)
    requires Init(s)
    ensures Inv(s)
  {
    assert s.CountedSet() == {};
  }

  lemma {:induction false} RunKeepsInv(run: seq<State>, k: nat)
    requires Run(run) && k < |run|
    ensures Inv(run[k])
  {
    if k == 0 {
      InitInv(run[0]);
    } else {
      RunKeepsInv(run, k - 1);
      var t: nat :| Step(run[k - 1], t, run[k]);
      StepKeepsInv(run[k - 1], t, run[k]);
    }
  }

  /** A writer excludes every reader and every other writer, in every reachable state. */
  lemma WriterExcludesAll(run: seq<State>, k: nat, t: nat, u: nat)
    requires Run(run) && k < |run| && run[k].At(t, Writing) && t != u
    ensures !run[k].At(u, Writing) && !run[k].At(u, Reading)
  {
    RunKeepsInv(run, k);
    var s := run[k];
    assert s.OwnsWq(t) && !s.OwnsWq(u) && !s.Admitted(u);
  }

  /** The assertion in downgrade holds: a nonzero old count is exactly 1, and that reader waits on wq. */
  lemma DowngradeAssertHolds(run: seq<State>, k: nat, t: nat)
    requires Run(run) && k < |run| && run[k].At(t, Writing)
    ensures run[k].readers == 0 || (run[k].readers == 1 && exists u: nat :: run[k].At(u, RWantWq))
  {
    RunKeepsInv(run, k);
    DowngradeSees(run[k], t);
  }

  /** The thread is between taking the write lock and releasing the read lock it downgraded to. */
  predicate Holds(s: State, t: nat) {
    s.At(t, Writing) || s.At(t, DHandOver) || s.At(t, Reading)
  }

  /** Downgrading is atomic: from holding the write lock to holding the read lock, and on for as long
      as the read lock is held, no other writer is ever admitted. */
  lemma NoWriterSlipsIn(run: seq<State>, i: nat, j: nat, t: nat, u: nat)
    requires Run(run) && i <= j < |run| && u != t
    requires run[i].At(t, Writing)
    requires forall k | i <= k <= j :: Holds(run[k], t)
    ensures forall k | i <= k <= j :: !run[k].At(u, Writing) && !run[k].At(u, WDone)
  {
    forall k | i <= k <= j ensures !run[k].At(u, Writing) && !run[k].At(u, WDone) {
      RunKeepsInv(run, k);
      var s := run[k];
      assert Holds(s, t);
      assert s.OwnsWq(t) || s.Admitted(t);
      assert (s.At(u, Writing) || s.At(u, WDone)) ==> s.OwnsWq(u);
    }
  }

  predicate Busy(s: State, t: nat) {
    t < |s.pc| && s.pc[t] != Idle && s.pc[t] != Reading && s.pc[t] != Writing
  }

  /** No deadlock: when nobody holds the mutex but some thread is inside an operation, one of them can move. */
  lemma NoDeadlock(run: seq<State>, k: nat, t: nat)
    requires Run(run) && k < |run| && Busy(run[k], t)
    requires forall u: nat :: !run[k].At(u, Reading) && !run[k].At(u, Writing)
    ensures exists u: nat, s': State :: Busy(run[k], u) && Step(run[k], u, s')
  {
    RunKeepsInv(run, k);
    var s := run[k];
    var mover: nat := t;
    if s.At(t, RWantRb) || s.At(t, WWantRb) {
      if s.rb {
        var h: nat :| s.HoldsRb(h);
        mover := h;
      }
    }
    if s.At(mover, RWantWq) || s.At(mover, WWantWq) {
      if s.wq {
        if o: nat :| s.OwnsWq(o) {
          mover := o;
        } else {
          var a: nat :| s.Admitted(a);
          mover := a;
        }
      }
    }
    assert !s.At(mover, Reading) && !s.At(mover, Writing);
    Enabled(s, mover);
  }

  lemma Enabled(s: State, t: nat)
    requires Busy(s, t)
    requires (s.At(t, RWantRb) || s.At(t, WWantRb)) ==> !s.rb
    requires (s.At(t, RWantWq) || s.At(t, WWantWq)) ==> !s.wq
    ensures exists s': State :: Step(s, t, s')
  {
    match s.pc[t]
    case RWantRb => assert Step(s, t, s.(rb := true).Go(t, RAdd));
    case RAdd => assert Step(s, t, s.(readers := Inc(s.readers)).Go(t, if s.readers == 0 then RWantWq else RDone));
    case RWantWq => assert Step(s, t, s.(wq := true).Go(t, RDone));
    case RDone => assert Step(s, t, s.(rb := false).Go(t, Reading));
    case ULast => assert Step(s, t, s.(wq := false).Go(t, Idle));
    case WWantRb => assert Step(s, t, s.(rb := true).Go(t, WWantWq));
    case WWantWq => assert Step(s, t, s.(wq := true).Go(t, WDone));
    case WDone => assert Step(s, t, s.(rb := false).Go(t, Writing));
    case DHandOver => assert Step(s, t, s.(wq := false).Go(t, Reading));
  }
}
