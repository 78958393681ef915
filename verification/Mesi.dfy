/** The MESI controllers of src/coherence_ctrls.{h,cpp}, called as src/cache.cpp and src/mem_ctrls.cpp do, for one
    line in a tree of inclusive caches. */
module Mesi {
  import opened Coherence
  import opened MesiOutcomes
  import opened MesiSteps
  import opened MesiTree
  import opened Options

  class Hierarchy {
    const parent: seq<nat>
    var st: seq<MESIState>              // MESIBottomCC::array, one line of every cache
    var dir: seq<Entry>                 // MESITopCC::array
    var pend: seq<Option<Request>>      // requests between a cache and its parent
    var serving: seq<Option<nat>>       // the child for whose sake a cache's request is on its way

    ghost var ver: seq<nat>             // the write whose data each copy holds
    ghost var mem: nat                  // and memory
    ghost var last: nat                 // writes so far

    ghost function Snap(): Tree
      reads `st, `dir, `pend, `serving, `ver, `mem, `last
    {
      Tree(parent, st, dir, pend, serving, ver, mem, last)
    }

    ghost predicate Valid()
      reads this
    {
      Snap().Inv() && DataOk(Snap())
    }

    constructor (parent: seq<nat>)
      requires |parent| > 0 && forall c: nat | 0 < c < |parent| :: parent[c] < c
      ensures Valid() && this.parent == parent && Initial(Snap())
    {
      this.parent := parent;
      st := seq(|parent|, _ => I);
      dir := seq(|parent|, _ => Entry(0, {}, {}, false));
      pend := seq(|parent|, _ => None);
      serving := seq(|parent|, _ => None);
      ver, mem, last := seq(|parent|, _ => 0), 0, 0;
      new;
      RunKeeps(Snap(), [], Snap());
    }

    // ---- invalidations, from a cache to the caches below it

    /** A cache's own state under an invalidation. */
    method BottomInval(n: nat, k: InvType, wb: bool) returns (wb': bool)
      requires n < |st| && st[n] != I && (k == INVX ==> HasExclusive(st[n]))
      modifies `st
      ensures st == old(st)[n := HitState(k, old(st[n]))] && wb' == (wb || old(st[n]) == M)
    {
      wb' := wb || st[n] == M;
      st := st[n := if k == INVX then S else I];
    }

    /** Sends an INV or INVX to the sharers. The writeback flag comes back set exactly if it was set before or a
        modified copy was found below; then its data has reached this cache. */
    method SendInvalidates(n: nat, k: InvType, wb: bool) returns (wb': bool)
      requires Snap().Shape() && n < |parent| && BelowInv(Snap(), n)
      modifies `st, `dir, `ver
      ensures Snap() == HitBelow(old(Snap()), n, k)
      ensures wb' == (wb || Raises(old(Snap()), n, k))
      decreases |parent| - n, 1
    {
      ghost var t := Snap();
      wb' := wb;
      if k == INVX && !dir[n].IsExclusive() {
        return;
      }
      if dir[n].IsEmpty() {
        NothingBelow(t, n, k);
        return;
      }
      assert t.DirShape(n) && (Raises(t, n, k) == DirtyReached(t, n, |parent|));
      var sentInvs := 0;
      HitNone(t, n, k);
      DirtyReachedNext(t, n, 0);
      hide BelowInv, HitUpTo, HitBelow, DirtyReached, Raises;
      for c := 0 to |parent|
        invariant Snap() == HitUpTo(t, n, k, c)
        invariant sentInvs == |SharersBelow(t.dir[n].sharers, c)| && wb' == (wb || DirtyReached(t, n, c))
      {
        SharersBelowNext(t.dir[n].sharers, c);
        HitNextSharer(t, n, k, c);
        if c in dir[n].sharers {
          wb' := InvalidateSharer(n, k, c, wb', t);
          sentInvs := sentInvs + 1;
        } else {
          HitSkip(t, n, k, c);
        }
        DirtyReachedNext(t, n, c);
      }
      AllSharers(t, n);
      HitEnds(t, n, k);
      assert sentInvs == dir[n].numSharers;
      if k == INV {
        dir := dir[n := dir[n].(numSharers := 0)];
      } else {
        assert dir[n].exclusive;
        assert dir[n].numSharers == 1;
        dir := dir[n := dir[n].(exclusive := false)];
      }
    }

    /** The loop body of sendInvalidates for one sharer. */
    method InvalidateSharer(n: nat, k: InvType, c: nat, wb: bool, ghost t: Tree) returns (wb': bool)
      requires t.parent == parent && t.Shape() && n < |parent| && BelowInv(t, n)
      requires c in t.dir[n].sharers && (k == INVX ==> t.dir[n].IsExclusive()) && Snap() == HitUpTo(t, n, k, c)
      modifies `st, `dir, `ver
      ensures Snap() == HitUpTo(t, n, k, c + 1) && wb' == (wb || Dirty(t, c))
      decreases |parent| - n, 0
    {
      ghost var u := Snap();
      HitAhead(t, n, k, c);
      HitNext(t, n, k, c);
      assert t.DirShape(n);
      wb' := Invalidate(c, k, wb);
      if k == INV {
        dir := dir[n := dir[n].(sharers := dir[n].sharers - {c})];
      }
      ver := if Dirty(u, c) then ver[n := ver[c]] else ver;
    }

    /** An INV or INVX from the parent: the children first, then this cache's own state. Exactly the subtree is hit,
        and the flag comes back set exactly if it was set before or the subtree held a modified copy. */
    method Invalidate(n: nat, k: InvType, wb: bool) returns (wb': bool)
      requires Snap().Shape() && n < |parent| && Snap().SubInv(n) && st[n] != I && (k == INVX ==> HasExclusive(st[n]))
      modifies `st, `dir, `ver
      ensures Snap() == Hit(old(Snap()), n, k)
      ensures wb' == (wb || Dirty(old(Snap()), n))
      decreases |parent| - n, 2
    {
      ghost var t := Snap();
      BelowInvOfSub(t, n);
      HitBelowAndSelf(t, n, k);
      SelfUntouched(t, n, k);
      DirtyIsReached(t, n);
      wb' := SendInvalidates(n, k, wb);
      wb' := BottomInval(n, k, wb');
    }

    // ---- requests, from a cache to its parent

    /** Takes an answered request off. */
    method Clear(c: nat)
      requires Snap().Shape() && c < |parent|
      modifies `pend, `serving
      ensures Snap() == Cleared(old(Snap()), c)
    {
      pend, serving := pend[c := None], serving[c := None];
    }

    /** A clean or dirty copy is put back. */
    method AnswerPut(c: nat, kind: AccessType)
      requires Snap().Inv() && Answerable(Snap(), c, kind) && (kind == PUTS || kind == PUTX)
      modifies this
      ensures Snap() == Answered(old(Snap()), c, kind) && PutAnswered(old(Snap()), Snap(), c)
    {
      ghost var t := Snap();
      PutOne(t, c, kind);
      hide PutAnswered;
      var p := parent[c];
      RaceCheckRepairs(t, c);
      assert t.ChildOk(c) && t.DirShape(p);
      // the line is there: inclusion was not lost
      assert st[p] != I;
      if kind == PUTX {
        assert HasExclusive(st[p]);
        ModifiedKeepsInv(t, p);
        st := st[p := M];
        assert dir[p].IsExclusive();
      }
      assert c in dir[p].sharers;
      PutKeepsInv(Snap(), c, kind);
      var e := dir[p];
      dir := dir[p := e.(numSharers := e.numSharers - 1, sharers := e.sharers - {c})];
      st := st[c := I];
      ver := if kind == PUTX then ver[p := ver[c]] else ver;
      Clear(c);
    }

    /** Enters the child in the directory, tells it its state, and gives it the data. */
    method Enter(p: nat, c: nat, x: MESIState, numSharers: nat)
      requires Snap().Shape() && Snap().IsChild(p, c) && p < |parent| && numSharers == dir[p].numSharers + 1
      modifies `st, `dir, `pend, `serving, `ver
      ensures Snap() == Cleared(Entered(old(Snap()), p, c, x), c)
    {
      var e := dir[p];
      dir := dir[p := Entry(numSharers, e.sharers + {c}, e.owners + {c}, HasExclusive(x))];
      st := st[c := x];
      ver := ver[c := ver[p]];
      Clear(c);
    }

    /** A GETS is answered from a valid line: in E if nobody shares it, or in S after a downgrade. */
    method AnswerGets(c: nat)
      requires Snap().Inv() && Answerable(Snap(), c, GETS)
      modifies this
      ensures Snap() == Answered(old(Snap()), c, GETS) && GotOne(old(Snap()), Snap(), c)
    {
      ghost var t := Snap();
      GetsOne(t, c);
      GetsReady(t, c);
      hide GotOne, Answered, Answerable, Collected, Tree.Inv, Tree.ChildOk, Tree.DirShape, Tree.PendOk;
      var p, noExcl := parent[c], pend[c].value.noExcl;
      if dir[p].IsEmpty() && HasExclusive(st[p]) && !noExcl {
        Enter(p, c, E, 1);
      } else {
        assert c !in dir[p].sharers;
        Downgrade(p);
        assert !dir[p].IsExclusive();
        Enter(p, c, S, dir[p].numSharers + 1);
      }
    }

    /** Downgrades an exclusive sharer, if there is one. Dirty data from below makes this copy modified. */
    method Downgrade(p: nat)
      requires Snap().Inv() && p < |parent| && pend[p] == None
      modifies `st, `dir, `ver
      ensures Snap() == Collected(old(Snap()), p, INVX) && Snap().Shape() && !dir[p].IsExclusive()
    {
      ghost var t := Snap();
      DowngradedKeepsInv(t, p);
      BelowInvExcept(t, p, 0);
      var inducedWriteback := false;
      if dir[p].IsExclusive() {
        ExclusiveParent(t, p);
        inducedWriteback := SendInvalidates(p, INVX, false);
        SelfUntouched(t, p, INVX);
      }
      if inducedWriteback {
        WritebackOnAccess(p);
      }
    }

    /** Dirty data arrived from below. */
    method WritebackOnAccess(p: nat)
      requires p < |st| && HasExclusive(st[p])
      modifies `st
      ensures st == old(st)[p := M]
    {
      if st[p] == E {
        st := st[p := M];
      }
    }

    /** Takes the child out of the directory, for an upgrade, and invalidates all other copies below. */
    method InvalidateOthers(p: nat, c: nat)
      requires Snap().Inv() && 0 < c < |parent| && parent[c] == p && !HasExclusive(st[c]) && st[p] == M
      modifies `st, `dir, `ver
      ensures Snap() == HitBelow(TakenOut(old(Snap()), p, c), p, INV)
      ensures InvExcept(Snap(), c) && dir[p].numSharers == 0
    {
      ghost var t := Snap();
      OthersInv(t, c);
      if c in dir[p].sharers {
        assert !dir[p].IsExclusive();
        dir := dir[p := dir[p].(numSharers := dir[p].numSharers - 1, sharers := dir[p].sharers - {c})];
      }
      assert Snap() == TakenOut(t, p, c);
      var inducedWriteback := SendInvalidates(p, INV, false);
      if inducedWriteback {
        WritebackOnAccess(p);
      }
      assert st == HitBelow(TakenOut(t, p, c), p, INV).st;
    }

    /** A GETX is answered from a line with exclusivity, after all other copies below were invalidated. */
    method AnswerGetx(c: nat)
      requires Snap().Inv() && Answerable(Snap(), c, GETX)
      modifies this
      ensures Snap() == Answered(old(Snap()), c, GETX) && GotxOne(old(Snap()), Snap(), c)
    {
      ghost var t := Snap();
      GetxOne(t, c);
      hide GotxOne;
      var p := parent[c];
      RaceCheckRepairs(t, c);
      ModifiedKeepsInv(t, p);
      st := st[p := M];
      GetxKeepsInv(Snap(), c);
      InvalidateOthers(p, c);
      Enter(p, c, M, dir[p].numSharers + 1);
      assert dir[p].numSharers == 1;
    }

    method Answer(c: nat, kind: AccessType)
      requires Valid() && Answerable(Snap(), c, kind)
      modifies this
      ensures Valid() && Snap() == Answered(old(Snap()), c, kind)
    {
      AnsweredKeepsData(Snap(), c, kind);
      hide PutAnswered, GotOne, GotxOne;
      match kind
      case GETS => AnswerGets(c);
      case GETX => AnswerGetx(c);
      case PUTS => AnswerPut(c, PUTS);
      case PUTX => AnswerPut(c, PUTX);
    }

    /** The rest of an access after its own request was answered: the source's nested calls return, each answering
        the child for whose sake it went up. */
    method PassDown(c: nat, served: Option<nat>)
      requires Valid() && c < |parent| && pend[c] == None
      requires served.Some? ==> Awaits(Snap(), c, served.value)
      modifies this
      ensures Valid() && Snap() == PassedDown(old(Snap()), c, served)
      decreases |parent| - c
    {
      if served.Some? {
        ghost var t := Snap();
        var d := served.value;
        var kind := pend[d].value.kind;
        var next := serving[d];
        AwaitsAnswerable(t, c, d);
        StillAwaits(t, d, kind);
        Answer(d, kind);
        PassDown(d, next);
      }
    }

    /** An access from child c: with its parent's locks taken, races are repaired, and the request is skipped, sent on,
        or answered. No assert and no panic of the source can fail on the way. */
    method Serve(c: nat)
      requires Valid() && 0 < c < |parent| && pend[c].Some? && pend[parent[c]] == None
      modifies this
      ensures Valid() && Snap() == Served(old(Snap()), c) && TakenUp(old(Snap()), Snap(), c)
    {
      ghost var t := Snap();
      ServedIsTakenUp(t, c);
      hide TakenUp;
      RaceCheckRepairs(t, c);
      ServedKeepsData(t, c);
      assert t.PendOk(c);
      var p := parent[c];
      match CheckForMESIRace(pend[c].value.kind, st[c], pend[c].value.initial)
      case Broken => assert false;
      case Skip =>
        SkipKeepsInv(t, c);
        Clear(c);
      case Go(kind) =>
        if (kind == GETS && st[p] == I) || (kind == GETX && !HasExclusive(st[p])) {
          FetchingKeepsInv(t, c, kind);
          pend := pend[p := Some(Request(kind, st[p], pend[c].value.noExcl))];
          serving := serving[p := Some(c)];
        } else {
          var fromChild, next := pend[c].value.kind, serving[c];
          Answer(c, kind);
          if kind == fromChild {
            StillAwaits(t, c, kind);
            PassDown(c, next);
          }
        }
    }

    /** Memory answers the cache next to it. */
    method ServeFromMemory()
      requires Valid() && pend[0].Some?
      modifies this
      ensures Valid() && Snap() == FromMemory(old(Snap())) && TakenUpByMemory(old(Snap()), Snap())
    {
      ghost var t := Snap();
      FromMemoryIsTakenUp(t);
      hide TakenUpByMemory;
      var r, next := pend[0].value, serving[0];
      FromMemoryKeepsInv(t);
      MemoryKeepsData(t);
      st := st[0 := MemoryGives(r)];
      if r.kind == PUTX {
        mem := ver[0];
      } else if r.kind == GETS || r.kind == GETX {
        ver := ver[0 := mem];
      }
      Clear(0);
      PassDown(0, next);
    }

    /** A core's or a prefetcher's miss, or a core's upgrade, goes to the parent. */
    method Issue(n: nat, kind: AccessType, noExcl: bool)
      requires Valid() && n < |parent| && pend[n] == None
      requires (kind == GETS && st[n] == I) || (kind == GETX && (st[n] == I || st[n] == S))
      modifies `pend
      ensures Valid() && Snap() == Issued(old(Snap()), n, kind, noExcl)
      ensures pend == old(pend)[n := Some(Request(kind, st[n], noExcl))]
    {
      IssuedKeepsInv(Snap(), n, kind, noExcl);
      RequestsCarryNoData(Snap(), Issued(Snap(), n, kind, noExcl));
      pend := pend[n := Some(Request(kind, st[n], noExcl))];
    }

    /** A core writes a line that its cache holds exclusively; the cache becomes modified silently. */
    method Write(n: nat)
      requires Valid() && n < |parent| && pend[n] == None && HasExclusive(st[n]) && dir[n].sharers == {}
      modifies `st, `ver, `last
      ensures Valid() && Snap() == Written(old(Snap()), n)
      ensures st == old(st)[n := M] && last == old(last) + 1 && ver == old(ver)[n := last]
    {
      WrittenKeepsInv(Snap(), n);
      WriteKeepsData(Snap(), n);
      st := st[n := M];
      ver, last := ver[n := last + 1], last + 1;
    }

    /** An eviction: the copies below go first, and their dirty data makes this copy modified; then it is put back. */
    method Evict(n: nat)
      requires Valid() && n < |parent| && pend[n] == None
      modifies this
      ensures Valid() && Snap() == Evicting(old(Snap()), n) && Evicted(old(Snap()), Snap(), n)
    {
      ghost var t := Snap();
      EvictingIsEvicted(t, n);
      hide Evicted;
      EvictingKeepsInv(t, n);
      EvictingKeepsData(t, n);
      SelfUntouched(t, n, INV);
      BelowInvExcept(t, n, 0);
      var lowerLevelWriteback := SendInvalidates(n, INV, false);
      if lowerLevelWriteback {
        assert HasExclusive(st[n]);
        st := st[n := M];
      }
      if st[n] != I {
        pend := pend[n := Some(Request(if st[n] == M then PUTX else PUTS, st[n], false))];
      }
    }
  }
}
