/** The CEASER array of src/cache_arrays.cpp with the refresh of src/coherence_ctrls.{h,cpp} and the driver of
    src/cache.h: the cache moves from one hash to another set by set, while it stays in use. */
module Ceaser {
  import opened AddressMap
  import opened Coherence
  import opened Rekeying

  class CeaserCache {
    const g: Geometry
    const numChildren: nat
    const addrs: array<nat>          // CEASERArray::array
    const states: array<MESIState>   // MESIBottomCC::array
    const entries: array<Entry>      // MESITopCC::array
    const switched: array<bool>      // switch_array
    var current: nat -> nat          // hf_current, masked to a set
    var target: nat -> nat           // hf_target, masked to a set
    var curSet: nat                  // Cache::cur_set

    ghost var where: map<nat, nat>
    ghost var has: seq<set<nat>>     // the valid copies of each child

    ghost function Snap(): Keyed
      reads `current, `target, `where, `has, addrs, states, entries, switched
    {
      Keyed(g, addrs[..], states[..], entries[..], switched[..], current, target, where, has)
    }

    /** Exactly the sets below curSet are switched, and every address is where a lookup searches for it. */
    ghost predicate Valid()
      reads this, addrs, states, entries, switched
    {
      && numChildren > 0 && Snap().Base() && |has| == numChildren && Snap().Placed()
      && curSet <= g.numSets && forall s | 0 <= s < g.numSets :: switched[s] <==> s < curSet
    }

    constructor (numSets: nat, assoc: nat, current: nat -> nat, target: nat -> nat, numChildren: nat)
      requires assoc > 0 && numSets > 0 && numChildren > 0
      requires forall a: nat :: current(a) < numSets && target(a) < numSets
      ensures Valid() && where == map[] && g == Flat(numSets, assoc) && this.current == current && this.target == target
    {
      var geo := Flat(numSets, assoc);
      FlatOk(numSets, assoc);
      g, this.numChildren := geo, numChildren;
      addrs := new nat[geo.lines](_ => 0);
      states := new MESIState[geo.lines](_ => I);
      entries := new Entry[geo.lines](_ => EMPTY);
      switched := new bool[geo.numSets](_ => false);
      this.current, this.target, curSet := current, target, 0;
      where := map[];
      has := seq(numChildren, _ => {});
    }

    /** Finds exactly the addresses that are resident. */
    method Lookup(lineAddr: nat) returns (lineId: int)
      requires Valid() && lineAddr != 0
      ensures lineId == if lineAddr in where then where[lineAddr] else -1
    {
      var s := current(lineAddr);
      if switched[s] {
        s := target(lineAddr);
      }
      for w := 0 to g.assoc
        invariant forall v: nat | v < w :: addrs[g.slot(s, v)] != lineAddr
      {
        if addrs[g.slot(s, w)] == lineAddr {
          return g.slot(s, w);
        }
      }
      FoundAtHome(Snap(), lineAddr);
      return -1;
    }

    /** Any way of the set where the address belongs may be the victim. */
    method Preinsert(lineAddr: nat) returns (candidate: nat, wbLineAddr: nat)
      requires Valid()
      ensures candidate < g.lines && g.setOf(candidate) == Snap().Home(lineAddr) && wbLineAddr == addrs[candidate]
    {
      var s := current(lineAddr);
      if switched[s] {
        s := target(lineAddr);
      }
      var way: nat :| way < g.assoc;
      candidate := g.slot(s, way);
      wbLineAddr := addrs[candidate];
    }

    /** A miss: the victim's copies are invalidated below and written back, then its line takes the new address. */
    method Allocate(lineAddr: nat) returns (lineId: nat)
      requires Valid() && lineAddr != 0 && lineAddr !in where
      modifies addrs, states, entries, `where, `has
      ensures Valid() && lineId < g.lines && g.setOf(lineId) == old(Snap()).Home(lineAddr)
      ensures Snap() == Allocated(old(Snap()), lineAddr, lineId)
      ensures addrs[..] == old(addrs[..])[lineId := lineAddr] && states[..] == old(states[..])[lineId := I]
      ensures entries[..] == old(entries[..])[lineId := Entry(0, {}, old(entries[lineId].owners),
                                                              old(entries[lineId].exclusive))]
    {
      var wbLineAddr;
      lineId, wbLineAddr := Preinsert(lineAddr);
      ghost var s := Snap();
      entries[lineId] := entries[lineId].(numSharers := 0, sharers := {});
      states[lineId] := I;
      addrs[lineId] := lineAddr;
      where, has := Rebound(where, lineAddr, lineId), Forget(has, wbLineAddr);
      assert Snap() == Allocated(s, lineAddr, lineId);
      AllocateKeepsBase(s, lineAddr, lineId);
    }

    /** Any other activity of the coherence protocol on a resident line: its state and its children's copies change,
        and the directory entry with them. */
    method ProtocolStep(lineId: nat, state: MESIState, entry: Entry)
      requires Valid() && lineId < g.lines && addrs[lineId] != 0
      requires EntryOk(entry, numChildren) && (state == I ==> entry.sharers == {})
      modifies states, entries, `has
      ensures Valid()
      ensures states[..] == old(states[..])[lineId := state] && entries[..] == old(entries[..])[lineId := entry]
      ensures has == Regranted(old(has), addrs[lineId], entry.sharers)
    {
      ProtocolKeepsBase(Snap(), lineId, state, entry);
      hide Keyed.Base, Keyed.Placed, Regranted, EntryOk;
      has := Regranted(has, addrs[lineId], entry.sharers);
      states[lineId], entries[lineId] := state, entry;
    }

    // ---- the refresh

    /** Makes every child that shares the line drop it, and clears the directory entry. The source panics if an
        empty line has a sharer, and asserts that a refreshed child finds the line: neither can fail. */
    method EvictAddr(lineAddr: nat, lineId: nat)
      requires numChildren > 0 && |has| == numChildren && lineId < entries.Length
      requires EntryOk(entries[lineId], numChildren)
      requires forall c: nat | c < numChildren :: c in entries[lineId].sharers <==> lineAddr in has[c]
      requires entries[lineId].sharers != {} ==> lineAddr != 0
      modifies entries, `has
      ensures entries[..] == old(entries[..])[lineId := Entry(0, {}, old(entries[lineId].owners), false)]
      ensures has == Forget(old(has), lineAddr)
    {
      for c := 0 to numChildren
        invariant entries[..] == old(entries[..])[lineId := entries[lineId]]
        invariant entries[lineId].owners == old(entries[lineId].owners) && |has| == numChildren
        invariant c > 0 ==> entries[lineId].numSharers == 0 && !entries[lineId].exclusive
        invariant forall d: nat :: d in entries[lineId].sharers <==> c <= d && d in old(entries[lineId].sharers)
        invariant forall d: nat | d < numChildren :: has[d] == if d < c then old(has[d]) - {lineAddr} else old(has[d])
      {
        if c in entries[lineId].sharers {
          assert lineAddr != 0;         // "Shared 0 addr"
          assert lineAddr in has[c];    // the child's lookup succeeds
          has := has[c := has[c] - {lineAddr}];
        }
        entries[lineId] :=
          entries[lineId].(sharers := entries[lineId].sharers - {c}, exclusive := false, numSharers := 0);
      }
      assert entries[lineId].sharers == {};
    }

    /** The directory entry moves, bit by bit. */
    method MoveEntry(replId: nat, lineId: nat)
      requires replId < entries.Length && lineId < entries.Length && replId != lineId
      requires EntryOk(entries[replId], numChildren) && EntryOk(entries[lineId], numChildren)
      requires entries[replId].numSharers == 0 && !entries[replId].exclusive
      modifies entries
      ensures entries[..] == old(entries[..])[replId := old(entries[lineId])][lineId := EMPTY]
    {
      var e1, e2 := entries[replId], entries[lineId];
      e1 := e1.(numSharers := e2.numSharers, exclusive := e2.exclusive);
      for c := 0 to numChildren
        invariant e1.numSharers == e2.numSharers && e1.exclusive == e2.exclusive
        invariant (forall d | d in e1.sharers :: d < numChildren) && (forall d | d in e1.owners :: d < numChildren)
        invariant forall d: nat | d < c ::
            (d in e1.sharers <==> d in e2.sharers) && (d in e1.owners <==> d in e2.owners)
      {
        e1 := e1.(sharers := if c in e2.sharers then e1.sharers + {c} else e1.sharers - {c},
                  owners := if c in e2.owners then e1.owners + {c} else e1.owners - {c});
      }
      assert e1.sharers == e2.sharers && e1.owners == e2.owners;
      entries[replId] := e1;
      e2 := e2.(numSharers := 0, exclusive := false);
      for c := 0 to numChildren
        invariant e2.numSharers == 0 && !e2.exclusive
        invariant (forall d | d in e2.sharers :: c <= d < numChildren)
        invariant (forall d | d in e2.owners :: c <= d < numChildren)
      {
        e2 := e2.(sharers := e2.sharers - {c}, owners := e2.owners - {c});
      }
      assert e2.sharers == {} && e2.owners == {};
      entries[lineId] := e2;
    }

    method MoveState(replId: nat, lineId: nat)
      requires replId < states.Length && lineId < states.Length && states[replId] == I
      modifies states
      ensures states[..] == old(states[..])[replId := old(states[lineId])][lineId := I]
    {
      states[replId] := states[lineId];
      states[lineId] := I;
    }

    method MoveAddr(replAddr: nat, replId: nat, lineAddr: nat, lineId: nat)
      requires replId < addrs.Length && lineId < addrs.Length && addrs[replId] == replAddr && addrs[lineId] == lineAddr
      modifies addrs
      ensures addrs[..] == old(addrs[..])[replId := lineAddr][lineId := 0]
    {
      addrs[replId] := lineAddr;
      addrs[lineId] := 0;
    }

    /** The directory entry, the state and the address of a line move over an evicted one. */
    method MoveOver(replAddr: nat, replId: nat, lineAddr: nat, lineId: nat)
      requires replId < addrs.Length == states.Length == entries.Length && lineId < addrs.Length && replId != lineId
      requires EntryOk(entries[replId], numChildren) && EntryOk(entries[lineId], numChildren)
      requires entries[replId].numSharers == 0 && !entries[replId].exclusive && states[replId] == I
      requires addrs[replId] == replAddr && addrs[lineId] == lineAddr
      modifies addrs, states, entries
      ensures entries[..] == old(entries[..])[replId := old(entries[lineId])][lineId := EMPTY]
      ensures states[..] == old(states[..])[replId := old(states[lineId])][lineId := I]
      ensures addrs[..] == old(addrs[..])[replId := lineAddr][lineId := 0]
    {
      MoveEntry(replId, lineId);
      MoveState(replId, lineId);
      MoveAddr(replAddr, replId, lineAddr, lineId);
    }

    /** Evicts the line at replId and moves the line at lineId over it. */
    method MoveLine(replAddr: nat, replId: nat, lineAddr: nat, lineId: nat)
      requires Snap().Base() && |has| == numChildren > 0 && replId < g.lines && lineId < g.lines && replId != lineId
      requires addrs[replId] == replAddr && addrs[lineId] == lineAddr != 0
      modifies addrs, states, entries, `where, `has
      ensures Snap() == Moved(old(Snap()), lineId, replId)
    {
      ghost var s := Snap();
      SharersOfLine(s, replId);
      assert s.LineOk(replId) && s.LineOk(lineId);
      hide Keyed.Base, Keyed.LineOk;
      EvictAddr(replAddr, replId);
      states[replId] := I;
      MoveOver(replAddr, replId, lineAddr, lineId);
      where := (where - {replAddr})[lineAddr := replId];
    }

    /** The loop body of a refresh, for way i of the set. */
    method RefreshWay(setId: nat, i: nat) returns (way: nat)
      requires Snap().Base() && |has| == numChildren > 0 && setId < g.numSets && i < g.assoc && !switched[setId]
      modifies addrs, states, entries, `where, `has
      ensures way < g.assoc && Snap() == Step(old(Snap()), setId, i, way)
      ensures WayRefreshed(old(Snap()), Snap(), setId, i, way)
    {
      ghost var s := Snap();
      hide WayRefreshed;
      way :| way < g.assoc;
      var lineId := g.slot(setId, i);
      var addr := addrs[lineId];
      if addr != 0 {
        var replSet := target(addr);
        var replId := g.slot(replSet, way);
        var replAddr := addrs[replId];
        if replSet != setId {
          MoveLine(replAddr, replId, addr, lineId);
        }
      }
      StepRefreshesWay(s, setId, i, way);
    }

    /** Refreshes one set: its lines move to the set of their target hash, each over one line there. */
    method ProcessRefresh(setId: nat) returns (ghost p: Pass)
      requires Snap().Base() && |has| == numChildren > 0 && Snap().Placed() && setId < g.numSets && !switched[setId]
      modifies addrs, states, entries, switched, `where, `has
      ensures Passes(old(Snap()), setId, p) && |p.picks| == g.assoc
      ensures setId < |p.states[g.assoc].switched| && Snap() == Switch(p.states[g.assoc], setId)
      ensures Snap().Base() && Snap().Placed() && |has| == numChildren
      ensures switched[..] == old(switched[..])[setId := true]
      ensures Carried(old(Snap()), Snap(), p.lost[g.assoc]) && |p.lost[g.assoc]| <= g.assoc
    {
      ghost var s := Snap();
      p := Pass([s], [{}], []);
      for i := 0 to g.assoc
        invariant |p.picks| == i && Passes(s, setId, p) && Snap() == p.states[i]
      {
        RefreshProgress(s, setId, p, i);
        var way := RefreshWay(setId, i);
        PassesNext(s, setId, p, way);
        p := Extended(p, Snap(), p.lost[i] + Overwritten(p.states[i], setId, i, way), way);
      }
      RefreshKeepsLookups(s, setId, p);
      switched[setId] := true;
    }

    method SwitchHash()
      modifies `current, `target
      ensures current == old(target) && target == old(current)
    {
      var temp := current;
      current := target;
      target := temp;
    }

    method ResetSwitches()
      modifies switched
      ensures forall s | 0 <= s < switched.Length :: !switched[s]
    {
      for i := 0 to switched.Length
        invariant forall s | 0 <= s < i :: !switched[s]
      {
        switched[i] := false;
      }
    }

    /** One step of the driver: the next set, or, after the last one, the hashes are swapped and the sweep restarts. */
    method Refresh() returns (ghost p: Pass)
      requires Valid()
      modifies this, addrs, states, entries, switched
      ensures Valid()
      ensures old(curSet) < g.numSets ==> curSet == old(curSet) + 1
      ensures old(curSet) < g.numSets ==> Passes(old(Snap()), old(curSet), p) && |p.picks| == g.assoc
      ensures old(curSet) < g.numSets ==> old(curSet) < |p.states[g.assoc].switched|
      ensures old(curSet) < g.numSets ==> Snap() == Switch(p.states[g.assoc], old(curSet))
      ensures old(curSet) < g.numSets ==>
        Carried(old(Snap()), Snap(), p.lost[g.assoc]) && |p.lost[g.assoc]| <= g.assoc
      ensures old(curSet) == g.numSets ==> curSet == 0 && Snap() == Swapped(old(Snap()))
    {
      if curSet >= g.numSets {
        SwapKeepsLookups(Snap());
        curSet, p := 0, Pass([], [], []);
        ghost var s := Snap();
        SwitchHash();
        ResetSwitches();
        assert switched[..] == Swapped(s).switched;
      } else {
        p := ProcessRefresh(curSet);
        curSet := curSet + 1;
      }
    }
  }
}
