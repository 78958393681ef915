/** What moving a cache from one hash to another means, set by set: where each address belongs meanwhile, what a
    step of the refresh does to the lines, and what it keeps. */
module Rekeying {
  import opened AddressMap
  import opened Arithmetic
  import opened Coherence
  import opened Sets

  /** Line ids by set and way. */
  datatype Geometry = Geometry(numSets: nat, assoc: nat, lines: nat, slot: (nat, nat) -> nat, setOf: nat -> nat,
                               wayOf: nat -> nat)
  {
    ghost predicate Ok() {
      && assoc > 0 && numSets > 0
      && (forall s: nat, w: nat | s < numSets && w < assoc ::
            slot(s, w) < lines && setOf(slot(s, w)) == s && wayOf(slot(s, w)) == w)
      && (forall l: nat | l < lines :: setOf(l) < numSets)
      && (forall l: nat | l < lines :: wayOf(l) < assoc)
      && (forall l: nat {:trigger slot(setOf(l), wayOf(l))} | l < lines :: slot(setOf(l), wayOf(l)) == l)
    }
  }

  /** The ids that the source computes: set * assoc + way. */
  function Flat(numSets: nat, assoc: nat): Geometry
    requires assoc > 0
  {
    Geometry(numSets, assoc, numSets * assoc, (s: nat, w: nat) => s * assoc + w, (l: nat) => l / assoc,
             (l: nat) => l % assoc)
  }

  lemma FlatOk(numSets: nat, assoc: nat)
    requires assoc > 0 && numSets > 0
    ensures Flat(numSets, assoc).Ok()
  {
    var g := Flat(numSets, assoc);
    forall s: nat, w: nat | s < numSets && w < assoc
      ensures g.slot(s, w) < g.lines && g.setOf(g.slot(s, w)) == s && g.wayOf(g.slot(s, w)) == w
    {
      Divide(s, w, assoc, numSets);
    }
    forall l: nat | l < g.lines
      ensures g.setOf(l) < g.numSets && g.wayOf(l) < assoc && g.slot(g.setOf(l), g.wayOf(l)) == l
    {
      assert l == l / assoc * assoc + l % assoc;
      if l / assoc >= numSets {
        MulMono(numSets, l / assoc, assoc);
      }
    }
  }

  lemma Divide(s: nat, w: nat, assoc: nat, numSets: nat)
    requires w < assoc && s < numSets
    ensures (s * assoc + w) / assoc == s && (s * assoc + w) % assoc == w
    ensures s * assoc + w < numSets * assoc
  {
    var l := s * assoc + w;
    DivIs(l, assoc, s);
    assert l == l / assoc * assoc + l % assoc;
    MulMono(s + 1, numSets, assoc);
    Distribute(s, 1, assoc);
  }

  /** The array, the coherence state and the directory line by line; the set flags and hashes; the map that
      lookups see; and the addresses of which each child holds a valid copy. */
  datatype Keyed = Keyed(g: Geometry, addrs: seq<nat>, states: seq<MESIState>, entries: seq<Entry>, switched: seq<bool>,
                         current: nat -> nat, target: nat -> nat, where: map<nat, nat>, has: seq<set<nat>>)
  {
    ghost predicate Sized() {
      && g.Ok() && |addrs| == |states| == |entries| == g.lines && |switched| == g.numSets
      && (forall a: nat :: current(a) < g.numSets && target(a) < g.numSets)
    }

    /** The set where address a belongs now. */
    ghost function Home(a: nat): nat
      requires Sized()
    {
      if switched[current(a)] then target(a) else current(a)
    }

    /** Every address sits in the set where a lookup searches for it. */
    ghost predicate Placed()
      requires Sized()
    {
      forall l: nat | l < g.lines && addrs[l] != 0 :: g.setOf(l) == Home(addrs[l])
    }

    ghost predicate Shares(c: nat, a: nat) {
      a in where && where[a] < |entries| && c in entries[where[a]].sharers
    }

    ghost predicate LineOk(l: nat)
      requires l < |addrs| == |states| == |entries|
    {
      && EntryOk(entries[l], |has|)
      && (addrs[l] == 0 ==> states[l] == I)
      && (states[l] == I ==> entries[l].sharers == {})
    }

    /** Lines and addresses correspond, directory entries count their bits, and the bits say which children hold
        copies. */
    ghost predicate Base() {
      && Sized() && Inverse(where, addrs)
      && (forall l: nat | l < g.lines :: LineOk(l))
      && (forall c: nat, a: nat | c < |has| :: a in has[c] <==> Shares(c, a))
    }
  }

  ghost predicate EntryOk(e: Entry, children: nat) {
    && e.numSharers == |e.sharers|
    && (forall c | c in e.sharers :: c < children && c in e.owners)
    && (forall c | c in e.owners :: c < children)
  }

  const EMPTY := Entry(0, {}, {}, false)

  ghost function Forget(has: seq<set<nat>>, a: nat): (r: seq<set<nat>>)
    ensures |r| == |has| && forall c: nat | c < |has| :: r[c] == has[c] - {a}
  {
    seq(|has|, c requires 0 <= c < |has| => has[c] - {a})
  }

  /** The line `from` moves over the line `to`: its address, coherence state and directory entry with it. The
      previous address of `to` is gone, for the children too. */
  ghost function Moved(s: Keyed, from: nat, to: nat): Keyed
    requires s.Sized() && from < s.g.lines && to < s.g.lines
  {
    s.(addrs := s.addrs[to := s.addrs[from]][from := 0],
       states := s.states[to := s.states[from]][from := I],
       entries := s.entries[to := s.entries[from]][from := EMPTY],
       where := (s.where - {s.addrs[to]})[s.addrs[from] := to],
       has := Forget(s.has, s.addrs[to]))
  }

  lemma MovedKeepsBase(s: Keyed, from: nat, to: nat)
    requires s.Base() && from < s.g.lines && to < s.g.lines && from != to && s.addrs[from] != 0
    ensures Moved(s, from, to).Base()
  {
    var s', a, v := Moved(s, from, to), s.addrs[from], s.addrs[to];
    assert s.where[a] == from;
    assert Inverse(s'.where, s'.addrs) by {
      forall i: nat | i < |s'.addrs| && s'.addrs[i] != 0 ensures s'.addrs[i] in s'.where && s'.where[s'.addrs[i]] == i {
        if i != to {
          assert s.where[s.addrs[i]] == i;
        }
      }
    }
    forall l: nat | l < s.g.lines ensures s'.LineOk(l) {
      assert s.LineOk(l) && s.LineOk(from);
    }
    forall c: nat, b: nat | c < |s'.has| ensures b in s'.has[c] <==> s'.Shares(c, b) {
      assert b in s.has[c] <==> s.Shares(c, b);
      if v == 0 {
        assert !s.Shares(c, v);
      }
    }
  }

  /** A resident address is found in some way of its set. */
  lemma FoundAtHome(s: Keyed, a: nat)
    requires s.Base() && s.Placed()
    ensures a in s.where ==> exists w: nat :: w < s.g.assoc && s.addrs[s.g.slot(s.Home(a), w)] == a
  {
    if a in s.where {
      var l := s.where[a];
      assert s.g.slot(s.Home(a), s.g.wayOf(l)) == l;
    }
  }

  /** Halfway through the refresh of a set: the lines elsewhere and in its first i ways already sit where they
      belong once this set counts as switched. */
  ghost predicate Sweeping(s: Keyed, setId: nat, i: nat)
    requires s.Sized() && setId < s.g.numSets
  {
    forall l: nat | l < s.g.lines :: Swept(s, setId, i, l)
  }

  ghost predicate Swept(s: Keyed, setId: nat, i: nat, l: nat)
    requires s.Sized() && setId < s.g.numSets && l < s.g.lines
  {
    s.addrs[l] != 0 ==>
      if s.g.setOf(l) == setId && i <= s.g.wayOf(l) then s.Home(s.addrs[l]) == setId
      else s.g.setOf(l) == Switch(s, setId).Home(s.addrs[l])
  }

  ghost function Switch(s: Keyed, setId: nat): Keyed
    requires setId < |s.switched|
  {
    s.(switched := s.switched[setId := true])
  }

  lemma SweepStarts(s: Keyed, setId: nat)
    requires s.Sized() && setId < s.g.numSets && s.Placed() && !s.switched[setId]
    ensures Sweeping(s, setId, 0)
  {
  }

  lemma SweepEnds(s: Keyed, setId: nat)
    requires s.Base() && setId < s.g.numSets && Sweeping(s, setId, s.g.assoc)
    ensures Switch(s, setId).Base() && Switch(s, setId).Placed()
  {
    forall l: nat | l < s.g.lines ensures Switch(s, setId).LineOk(l) {
      assert s.LineOk(l);
    }
    forall c: nat, b: nat | c < |s.has| ensures b in s.has[c] <==> Switch(s, setId).Shares(c, b) {
      assert b in s.has[c] <==> s.Shares(c, b);
    }
    forall l: nat | l < s.g.lines && s.addrs[l] != 0 ensures s.g.setOf(l) == Switch(s, setId).Home(s.addrs[l]) {
      assert Swept(s, setId, s.g.assoc, l) && s.g.wayOf(l) < s.g.assoc;
    }
  }

  /** A line that hashes elsewhere under the target hash moves there, over any line of that set. */
  lemma SweepMoves(s: Keyed, setId: nat, i: nat, to: nat)
    requires s.Sized() && setId < s.g.numSets && i < s.g.assoc && !s.switched[setId] && Sweeping(s, setId, i)
    requires to < s.g.lines && s.g.setOf(to) == s.target(s.addrs[s.g.slot(setId, i)]) != setId
    requires s.addrs[s.g.slot(setId, i)] != 0
    ensures Moved(s, s.g.slot(setId, i), to).Sized() && Sweeping(Moved(s, s.g.slot(setId, i), to), setId, i + 1)
  {
    var from := s.g.slot(setId, i);
    var s' := Moved(s, from, to);
    assert Swept(s, setId, i, from);
    var j := i + 1;
    forall l: nat | l < s.g.lines ensures Swept(s', setId, j, l) {
      assert Swept(s, setId, i, l);
      if s.g.setOf(l) == setId && s.g.wayOf(l) == i {
        assert l == from;
      }
    }
  }

  /** A line that stays in its set is where the target hash puts it; an empty line needs no move. */
  lemma SweepKeeps(s: Keyed, setId: nat, i: nat)
    requires s.Base() && setId < s.g.numSets && i < s.g.assoc && !s.switched[setId] && Sweeping(s, setId, i)
    requires s.addrs[s.g.slot(setId, i)] == 0 || s.target(s.addrs[s.g.slot(setId, i)]) == setId
    ensures Sweeping(s, setId, i + 1)
  {
    var j := i + 1;
    forall l: nat | l < s.g.lines ensures Swept(s, setId, j, l) {
      assert Swept(s, setId, i, l);
      if s.g.setOf(l) == setId && s.g.wayOf(l) == i {
        assert l == s.g.slot(setId, i);
      }
    }
  }

  /** What the refresh does to way i of the set when its random choice is the way `pick`. */
  ghost function Step(s: Keyed, setId: nat, i: nat, pick: nat): (t: Keyed)
    requires s.Sized() && setId < s.g.numSets && i < s.g.assoc && pick < s.g.assoc
    ensures t.Sized() && t.g == s.g
  {
    var from := s.g.slot(setId, i);
    var a := s.addrs[from];
    if a == 0 || s.target(a) == setId then s else Moved(s, from, s.g.slot(s.target(a), pick))
  }

  /** The address that this overwrites, if any. */
  ghost function Overwritten(s: Keyed, setId: nat, i: nat, pick: nat): set<nat>
    requires s.Sized() && setId < s.g.numSets && i < s.g.assoc && pick < s.g.assoc
  {
    var a := s.addrs[s.g.slot(setId, i)];
    if a == 0 || s.target(a) == setId then {} else {s.addrs[s.g.slot(s.target(a), pick)]}
  }

  /** The line `from` is empty now, and `to` holds its address, coherence state and directory entry; no other line
      changed. */
  ghost predicate OneMoved(s: Keyed, t: Keyed, from: nat, to: nat) {
    && t == s.(addrs := t.addrs, states := t.states, entries := t.entries, where := t.where, has := t.has)
    && |s.addrs| == |s.states| == |s.entries| == |t.addrs| == |t.states| == |t.entries|
    && from < |s.addrs| && to < |s.addrs| && from != to
    && t.addrs[to] == s.addrs[from] && t.states[to] == s.states[from] && t.entries[to] == s.entries[from]
    && t.addrs[from] == 0 && t.states[from] == I && t.entries[from] == EMPTY
    && forall l | 0 <= l < |s.addrs| && l != from && l != to ::
        t.addrs[l] == s.addrs[l] && t.states[l] == s.states[l] && t.entries[l] == s.entries[l]
  }

  /** Way i of the set was refreshed: if its line hashes to another set now, it moved there, over one line. */
  ghost predicate WayRefreshed(s: Keyed, t: Keyed, setId: nat, i: nat, pick: nat)
    requires s.Sized() && setId < s.g.numSets && i < s.g.assoc && pick < s.g.assoc
  {
    var from := s.g.slot(setId, i);
    var a := s.addrs[from];
    if a != 0 && s.target(a) != setId then OneMoved(s, t, from, s.g.slot(s.target(a), pick)) else t == s
  }

  lemma StepRefreshesWay(s: Keyed, setId: nat, i: nat, pick: nat)
    requires s.Sized() && setId < s.g.numSets && i < s.g.assoc && pick < s.g.assoc
    ensures WayRefreshed(s, Step(s, setId, i, pick), setId, i, pick)
  {
  }

  /** A refresh under way: the state after each of the ways so far, and all that was overwritten until then. */
  datatype Pass = Pass(states: seq<Keyed>, lost: seq<set<nat>>, picks: seq<nat>)

  ghost predicate Passes(s: Keyed, setId: nat, p: Pass)
    requires s.Sized() && setId < s.g.numSets
  {
    && |p.states| == |p.lost| == |p.picks| + 1 && |p.picks| <= s.g.assoc
    && p.states[0] == s && p.lost[0] == {}
    && forall i: nat {:trigger PassesWay(s, setId, p, i)} | i < |p.picks| :: PassesWay(s, setId, p, i)
  }

  ghost predicate PassesWay(s: Keyed, setId: nat, p: Pass, i: nat)
    requires s.Sized() && setId < s.g.numSets
  {
    && i < |p.picks| < |p.states| == |p.lost| && i < s.g.assoc && p.picks[i] < s.g.assoc
    && p.states[i].Sized() && p.states[i].g == s.g
    && p.states[i + 1] == Step(p.states[i], setId, i, p.picks[i])
    && p.lost[i + 1] == p.lost[i] + Overwritten(p.states[i], setId, i, p.picks[i])
  }

  ghost function Extended(p: Pass, t: Keyed, lost: set<nat>, pick: nat): Pass {
    Pass(p.states + [t], p.lost + [lost], p.picks + [pick])
  }

  lemma PassesNext(s: Keyed, setId: nat, p: Pass, pick: nat)
    requires s.Sized() && setId < s.g.numSets && Passes(s, setId, p) && |p.picks| < s.g.assoc && pick < s.g.assoc
    requires p.states[|p.picks|].Sized() && p.states[|p.picks|].g == s.g
    ensures var i, t := |p.picks|, p.states[|p.picks|];
      Passes(s, setId, Extended(p, Step(t, setId, i, pick), p.lost[i] + Overwritten(t, setId, i, pick), pick))
  {
    var n, t := |p.picks|, p.states[|p.picks|];
    var q := Extended(p, Step(t, setId, n, pick), p.lost[n] + Overwritten(t, setId, n, pick), pick);
    forall i: nat {:trigger PassesWay(s, setId, q, i)} | i < |q.picks| ensures PassesWay(s, setId, q, i) {
      assert i < n ==> PassesWay(s, setId, p, i);
    }
  }

  /** From s, i ways of the set are done: t is well formed, and what it lost is `gone`. */
  ghost predicate Progress(s: Keyed, t: Keyed, gone: set<nat>, setId: nat, i: nat)
    requires s.Base() && setId < s.g.numSets && t.Sized() && t.g == s.g
  {
    t.Base() && |t.has| == |s.has| && t.switched == s.switched && Sweeping(t, setId, i) && Carried(s, t, gone)
  }

  lemma StartsProgress(s: Keyed, setId: nat)
    requires s.Base() && s.Placed() && setId < s.g.numSets && !s.switched[setId]
    ensures Progress(s, s, {}, setId, 0)
  {
    SweepStarts(s, setId);
    assert s.where.Keys - {} == s.where.Keys;
  }

  lemma StepKeepsProgress(s: Keyed, t: Keyed, gone: set<nat>, setId: nat, i: nat, pick: nat, t': Keyed, gone': set<nat>)
    requires s.Base() && setId < s.g.numSets && !s.switched[setId] && t.Sized() && t.g == s.g
    requires i < s.g.assoc && pick < s.g.assoc && Progress(s, t, gone, setId, i)
    requires t' == Step(t, setId, i, pick) && gone' == gone + Overwritten(t, setId, i, pick)
    ensures t'.Sized() && t'.g == s.g && Progress(s, t', gone', setId, i + 1)
  {
    var from := t.g.slot(setId, i);
    var a := t.addrs[from];
    if a == 0 || t.target(a) == setId {
      SweepKeeps(t, setId, i);
      assert t' == t && gone' == gone;
    } else {
      var to := t.g.slot(t.target(a), pick);
      MovedKeepsBase(t, from, to);
      SweepMoves(t, setId, i, to);
      MoveCarries(s, t, gone, from, to);
    }
  }

  /** Whatever ways the refresh of a set picks, only overwritten lines are lost, and every other line keeps its
      coherence state and directory entry wherever it goes. */
  lemma {:induction false} RefreshProgress(s: Keyed, setId: nat, p: Pass, i: nat)
    requires s.Base() && s.Placed() && setId < s.g.numSets && !s.switched[setId] && Passes(s, setId, p)
    requires i <= |p.picks|
    ensures p.states[i].Sized() && p.states[i].g == s.g && Progress(s, p.states[i], p.lost[i], setId, i)
  {
    if i == 0 {
      StartsProgress(s, setId);
    } else {
      RefreshProgress(s, setId, p, i - 1);
      assert PassesWay(s, setId, p, i - 1);
      hide Passes, Progress, Keyed.Base, Keyed.Placed;
      StepKeepsProgress(s, p.states[i - 1], p.lost[i - 1], setId, i - 1, p.picks[i - 1], p.states[i], p.lost[i]);
    }
  }

  /** At most one line is overwritten for each way. */
  lemma {:induction false} LostIsFew(s: Keyed, setId: nat, p: Pass, i: nat)
    requires s.Sized() && setId < s.g.numSets && Passes(s, setId, p) && i <= |p.picks|
    ensures |p.lost[i]| <= i
  {
    if i > 0 {
      LostIsFew(s, setId, p, i - 1);
      assert PassesWay(s, setId, p, i - 1);
      var more := Overwritten(p.states[i - 1], setId, i - 1, p.picks[i - 1]);
      assert |more| <= 1 && p.lost[i] == p.lost[i - 1] + more;
      UnionSize(p.lost[i - 1], more);
    }
  }

  lemma UnionSize<T>(a: set<T>, b: set<T>)
    ensures |a + b| <= |a| + |b|
  {
    assert a + b == a + (b - a);
    assert |b - a| <= |b| by {
      SubsetSize(b - a, b);
    }
  }

  /** After the refresh every line is where lookups search for it, the set now being switched. */
  lemma RefreshKeepsLookups(s: Keyed, setId: nat, p: Pass)
    requires s.Base() && s.Placed() && setId < s.g.numSets && !s.switched[setId]
    requires Passes(s, setId, p) && |p.picks| == s.g.assoc
    ensures p.states[s.g.assoc].Sized() && p.states[s.g.assoc].g == s.g
    ensures var u := Switch(p.states[s.g.assoc], setId);
      u.Base() && u.Placed() && |u.has| == |s.has| && u.switched == s.switched[setId := true]
        && Carried(s, u, p.lost[s.g.assoc]) && |p.lost[s.g.assoc]| <= s.g.assoc
  {
    RefreshProgress(s, setId, p, s.g.assoc);
    LostIsFew(s, setId, p, s.g.assoc);
    SweepEnds(p.states[s.g.assoc], setId);
  }

  /** Between two states: the gone addresses are the only ones lost, and every other line kept its coherence
      state and its directory entry wherever it went. */
  ghost predicate Carried(s: Keyed, t: Keyed, gone: set<nat>)
    requires |s.addrs| == |s.states| == |s.entries| && |t.addrs| == |t.states| == |t.entries|
    requires Inverse(s.where, s.addrs) && Inverse(t.where, t.addrs)
  {
    && t.where.Keys == s.where.Keys - gone
    && forall a | a in t.where ::
        && a in s.where
        && t.states[t.where[a]] == s.states[s.where[a]]
        && t.entries[t.where[a]] == s.entries[s.where[a]]
  }

  lemma MoveCarries(s: Keyed, t: Keyed, gone: set<nat>, from: nat, to: nat)
    requires s.Base() && t.Base() && Carried(s, t, gone) && from < t.g.lines && to < t.g.lines && from != to
    requires t.addrs[from] != 0 && Moved(t, from, to).Base()
    ensures Carried(s, Moved(t, from, to), gone + {t.addrs[to]})
  {
    var u := Moved(t, from, to);
    assert 0 !in s.where;
    assert t.where[t.addrs[from]] == from;
    forall a | a in u.where
      ensures a in t.where && u.states[u.where[a]] == t.states[t.where[a]]
      ensures u.entries[u.where[a]] == t.entries[t.where[a]]
    {
      if a != t.addrs[from] {
        assert t.addrs[t.where[a]] == a && t.where[a] != from;
      }
    }
  }

  /** The hashes swapped and all flags cleared, as the driver does after a sweep. */
  ghost function Swapped(s: Keyed): Keyed {
    s.(current := s.target, target := s.current, switched := seq(|s.switched|, _ => false))
  }

  /** Once all sets are switched, the swap changes no set that any lookup uses. */
  lemma SwapKeepsLookups(s: Keyed)
    requires s.Base() && s.Placed() && forall k | 0 <= k < s.g.numSets :: s.switched[k]
    ensures Swapped(s).Base() && Swapped(s).Placed() && Carried(s, Swapped(s), {})
    ensures forall a: nat :: Swapped(s).Home(a) == s.Home(a)
  {
    forall l: nat | l < s.g.lines ensures Swapped(s).LineOk(l) {
      assert s.LineOk(l);
    }
    forall c: nat, b: nat | c < |s.has| ensures b in s.has[c] <==> Swapped(s).Shares(c, b) {
      assert b in s.has[c] <==> s.Shares(c, b);
    }
  }

  ghost function Allocated(s: Keyed, a: nat, l: nat): Keyed
    requires s.Sized() && l < s.g.lines
  {
    s.(addrs := s.addrs[l := a], states := s.states[l := I],
       entries := s.entries[l := s.entries[l].(numSharers := 0, sharers := {})],
       where := Rebound(s.where, a, l), has := Forget(s.has, s.addrs[l]))
  }

  lemma AllocateKeepsBase(s: Keyed, a: nat, l: nat)
    requires s.Base() && l < s.g.lines && a != 0 && a !in s.where
    ensures Allocated(s, a, l).Base()
  {
    var s' := Allocated(s, a, l);
    RebindKeepsInverse(s.where, s.addrs, a, l);
    forall k: nat | k < s.g.lines ensures s'.LineOk(k) {
      assert s.LineOk(k);
    }
    forall c: nat, b: nat | c < |s'.has| ensures b in s'.has[c] <==> s'.Shares(c, b) {
      assert b in s.has[c] <==> s.Shares(c, b);
    }
  }

  /** Exactly these children hold address a. */
  ghost function Regranted(has: seq<set<nat>>, a: nat, sharers: set<nat>): (r: seq<set<nat>>)
    ensures |r| == |has| && forall c: nat | c < |has| :: r[c] == if c in sharers then has[c] + {a} else has[c] - {a}
  {
    seq(|has|, c requires 0 <= c < |has| => if c in sharers then has[c] + {a} else has[c] - {a})
  }

  lemma ProtocolKeepsBase(s: Keyed, l: nat, state: MESIState, entry: Entry)
    requires s.Base() && l < s.g.lines && s.addrs[l] != 0
    requires EntryOk(entry, |s.has|) && (state == I ==> entry.sharers == {})
    ensures s.(states := s.states[l := state], entries := s.entries[l := entry],
               has := Regranted(s.has, s.addrs[l], entry.sharers)).Base()
  {
    var s' := s.(states := s.states[l := state], entries := s.entries[l := entry],
                 has := Regranted(s.has, s.addrs[l], entry.sharers));
    assert s.where[s.addrs[l]] == l;
    forall k: nat | k < s.g.lines ensures s'.LineOk(k) {
      assert s.LineOk(k);
    }
    forall c: nat, b: nat | c < |s'.has| ensures b in s'.has[c] <==> s'.Shares(c, b) {
      assert b in s.has[c] <==> s.Shares(c, b);
      if b in s.where && b != s.addrs[l] {
        assert s.addrs[s.where[b]] == b;
      }
    }
  }

  /** The sharer bits of a line name exactly the children that hold its address; an empty line has none. */
  lemma SharersOfLine(s: Keyed, l: nat)
    requires s.Base() && l < s.g.lines
    ensures forall c: nat | c < |s.has| :: c in s.entries[l].sharers <==> s.addrs[l] in s.has[c]
    ensures s.addrs[l] == 0 ==> s.entries[l].sharers == {}
  {
    assert s.LineOk(l);
    forall c: nat | c < |s.has| ensures c in s.entries[l].sharers <==> s.addrs[l] in s.has[c] {
      assert s.addrs[l] in s.has[c] <==> s.Shares(c, s.addrs[l]);
    }
  }
}
