/** The zcache array of src/cache_arrays.cpp: a breadth-first walk over alternative positions finds a victim,
    and the insertion moves lines by permuting positions only. */
module ZArray {
  import opened AddressMap
  import opened ZWalk

  /** s fills the front of the buffer. */
  ghost predicate Holds<T>(buffer: array<T>, s: seq<T>)
    reads buffer
  {
    |s| <= buffer.Length && forall j | 0 <= j < |s| :: buffer[j] == s[j]
  }

  class ZArrayObject {
    const g: Geometry
    const cands: nat
    const addrs: array<nat>        // array: line id to address
    const lookupArray: array<nat>  // position to line id
    const swapArray: array<nat>    // positions, filled by Preinsert for Postinsert
    var swapArrayLen: nat
    var lastCandIdx: nat

    ghost var ord: map<nat, nat>   // position to its index in swapArray
    ghost var at: seq<nat>         // line id to position
    ghost var where: map<nat, nat> // address to line id

    ghost predicate Valid()
      reads `at, `where, addrs, lookupArray
    {
      && Consistent(g, addrs[..], lookupArray[..], at, where)
      && cands >= g.ways && swapArray.Length == cands / g.ways + 2
      && lookupArray != addrs && swapArray != addrs && swapArray != lookupArray
    }

    /** Preinsert for address a chose this victim, and nothing but lookups happened since. */
    ghost predicate Prepared(a: nat, victim: nat)
      requires addrs.Length == lookupArray.Length == g.lines
      reads `swapArrayLen, `ord, addrs, lookupArray, swapArray
    {
      && 0 < swapArrayLen <= swapArray.Length
      && Chain(g, addrs[..], lookupArray[..], a, swapArray[..swapArrayLen], ord, victim)
    }

    constructor (numSets: nat, ways: nat, cands: nat, hash: (nat, nat) -> nat)
      requires ways > 1 && cands >= ways && numSets > 0
      ensures Valid() && where == map[] && g == Hashed(ways, numSets, hash) && this.cands == cands
    {
      var geo := Hashed(ways, numSets, hash);
      HashedOk(ways, numSets, hash);
      g := geo;
      this.cands := cands;
      lookupArray := new nat[geo.lines](i => i);  // start with a linear mapping
      addrs := new nat[geo.lines](_ => 0);
      swapArray := new nat[cands / ways + 2](_ => 0);
      swapArrayLen, lastCandIdx := 0, 0;
      at := seq(geo.lines, i => i);
      where := map[];
    }

    /** Finds the line of the address wherever the insertions moved it, and -1 if no line has it. */
    method Lookup(lineAddr: nat) returns (lineId: int)
      requires Valid() && lineAddr != 0
      ensures lineId == if lineAddr in where then where[lineAddr] else -1
    {
      for w := 0 to g.ways
        invariant forall v: nat | v < w :: addrs[lookupArray[g.pos(v, lineAddr)]] != lineAddr
      {
        var l := lookupArray[g.pos(w, lineAddr)];
        if addrs[l] == lineAddr { return l; }
      }
      AtSomeHome(g, addrs[..], lookupArray[..], at, where, lineAddr);
      return -1;
    }

    /** The seeds of the walk: the lines at the positions of the new address. */
    method Seeds(lineAddr: nat, candidates: array<Walk>) returns (allValid: bool)
      requires Valid() && candidates.Length == cands + g.ways
      modifies candidates
      ensures Walked(g, addrs[..], lookupArray[..], lineAddr, candidates[..g.ways], 0)
      ensures allValid == Occupied(addrs[..], candidates[..g.ways])
    {
      allValid := true;
      for w := 0 to g.ways
        invariant forall j | 0 <= j < w ::
            candidates[j] == Walk(g.pos(j, lineAddr), lookupArray[g.pos(j, lineAddr)], -1)
        invariant allValid == forall j | 0 <= j < w :: addrs[candidates[j].lineId] != 0
      {
        var pos := g.pos(w, lineAddr);
        var lineId := lookupArray[pos];
        candidates[w] := Walk(pos, lineId, -1);
        allValid := allValid && addrs[lineId] != 0;
      }
      assert forall j | 0 <= j < g.ways :: candidates[..g.ways][j] == candidates[j];
    }

    /** Writes a candidate behind the first num ones, and keeps it unless its line is the fringe's own. */
    static method SetCandidate(candidates: array<Walk>, num: nat, x: Walk, fringeId: nat,
                               ghost c: seq<Walk>) returns (num': nat)
      requires num == |c| < candidates.Length && Holds(candidates, c)
      modifies candidates
      ensures var c' := if x.lineId == fringeId then c else c + [x];
        num' == |c'| && Holds(candidates, c')
    {
      candidates[num] := x;
      num' := num + if x.lineId != fringeId then 1 else 0;
    }

    /** Adds the candidates reached from the one at the fringe, exactly ways - 1 of them. The walk so far is c,
        the first num entries of the buffer. */
    method Expand(lineAddr: nat, candidates: array<Walk>, num: nat, fringe: nat, ghost c: seq<Walk>)
      returns (num': nat, allValid: bool, ghost c': seq<Walk>)
      requires Valid() && candidates.Length == cands + g.ways && fringe + g.ways <= num == |c| < cands
      requires Holds(candidates, c)
      requires Walked(g, addrs[..], lookupArray[..], lineAddr, c, fringe)
      requires AllExpanded(g, addrs[..], lookupArray[..], c, fringe) && Occupied(addrs[..], c)
      modifies candidates
      ensures num' == |c'| == num + g.ways - 1 && Holds(candidates, c')
      ensures Walked(g, addrs[..], lookupArray[..], lineAddr, c', fringe + 1)
      ensures AllExpanded(g, addrs[..], lookupArray[..], c', fringe + 1) && allValid == Occupied(addrs[..], c')
    {
      ghost var lines, lookup := addrs[..], lookupArray[..];
      var fringeId := candidates[fringe].lineId;
      var fringeAddr := addrs[fringeId];
      assert fringeAddr != 0;
      ghost var k := ExpandStart(g, lines, lookup, at, where, lineAddr, c, fringe);
      num', allValid, c' := num, true, c;
      for w := 0 to g.ways
        invariant Expanding(g, lines, lookup, lineAddr, c', fringe, w, k, c)
        invariant num' == |c'| && Holds(candidates, c')
        invariant allValid == Occupied(lines, c')
      {
        var pos := g.pos(w, fringeAddr);
        var lineId := lookupArray[pos];
        ExpandStep(g, lines, lookup, lineAddr, c', fringe, w, k, c);
        num' := SetCandidate(candidates, num', Walk(pos, lineId, fringe), fringeId, c');
        c' := Visited(g, lines, lookup, c', fringe, w);
        allValid := allValid && addrs[lineId] != 0;
      }
      ExpandEnd(g, lines, lookup, lineAddr, c', fringe, k, c);
    }

    /** The breadth-first walk. It ends with exactly `cands` candidates, or earlier with a free line among them. */
    method WalkFrom(lineAddr: nat, candidates: array<Walk>) returns (num: nat, ghost c: seq<Walk>, ghost fringe: nat)
      requires Valid() && candidates.Length == cands + g.ways
      modifies candidates
      ensures g.ways <= num <= cands && num <= |c| && Holds(candidates, c)
      ensures Walked(g, addrs[..], lookupArray[..], lineAddr, c, fringe)
      ensures AllExpanded(g, addrs[..], lookupArray[..], c, fringe)
      ensures num == cands || !Occupied(addrs[..], c)
    {
      var allValid := Seeds(lineAddr, candidates);
      var fringeStart := 0;
      num, c := g.ways, candidates[..g.ways];
      while num < cands && allValid
        invariant fringeStart + g.ways <= num == |c| < cands + g.ways
        invariant Holds(candidates, c)
        invariant Walked(g, addrs[..], lookupArray[..], lineAddr, c, fringeStart)
        invariant AllExpanded(g, addrs[..], lookupArray[..], c, fringeStart) && allValid == Occupied(addrs[..], c)
      {
        num, allValid, c := Expand(lineAddr, candidates, num, fringeStart, c);
        fringeStart := fringeStart + 1;
      }
      fringe := fringeStart;
      assert !allValid || num >= cands;
      num := if num > cands then cands else num;
    }

    /** Follows the parents from the chosen candidate up to a seed. The swap buffer is large enough. */
    method FillSwaps(lineAddr: nat, candidates: array<Walk>, minIdx: nat, ghost c: seq<Walk>, ghost fringe: nat)
      requires Valid()
      requires minIdx < cands && minIdx < |c| && Holds(candidates, c)
      requires Walked(g, addrs[..], lookupArray[..], lineAddr, c, fringe)
      requires AllExpanded(g, addrs[..], lookupArray[..], c, fringe) && First(c, minIdx)
      modifies swapArray, `swapArrayLen, `ord
      ensures Prepared(lineAddr, c[minIdx].lineId)
    {
      ghost var lines, lookup := addrs[..], lookupArray[..];
      var idx: int, swapIdx := minIdx, 0;
      ghost var path: seq<nat>, swap: seq<nat>, ord': map<nat, nat> := [], [], map[];
      hide Walked, AllExpanded, Linked, Chain;
      while idx >= 0
        invariant |swap| == swapIdx && Holds(swapArray, swap)
        invariant Climbing(g, c, minIdx, idx, path, swap, ord')
      {
        HopBound(swapIdx, g.ways, cands);
        ClimbStep(g, lines, lookup, lineAddr, c, fringe, minIdx, idx, path, swap, ord');
        swapArray[swapIdx] := candidates[idx].pos;
        path, swap, ord' := path + [idx], swap + [c[idx].pos], ord'[c[idx].pos := swapIdx];
        swapIdx := swapIdx + 1;
        idx := candidates[idx].parentIdx;
      }
      swapArrayLen, ord := swapIdx, ord';
      assert swapArray[..swapArrayLen] == swap;
      LinkedIsChain(g, addrs[..], lookupArray[..], lineAddr, c, fringe, path, swapArray[..swapArrayLen], ord);
    }

    /** The first candidate with the victim's line: a line may be reached more than once. */
    static method FirstWithLine(candidates: array<Walk>, best: nat) returns (minIdx: nat)
      requires best < candidates.Length
      ensures minIdx <= best && candidates[minIdx].lineId == candidates[best].lineId
      ensures forall m | 0 <= m < minIdx :: candidates[m].lineId != candidates[best].lineId
    {
      minIdx := 0;
      while candidates[minIdx].lineId != candidates[best].lineId
        invariant minIdx <= best
        invariant forall m | 0 <= m < minIdx :: candidates[m].lineId != candidates[best].lineId
        decreases best - minIdx
      {
        minIdx := minIdx + 1;
      }
    }

    /** Chooses a victim among the walk's candidates (any one may rank best) and prepares the swaps for it. */
    method Preinsert(lineAddr: nat) returns (victim: nat, wbLineAddr: nat)
      requires Valid()
      modifies swapArray, `swapArrayLen, `lastCandIdx, `ord
      ensures Valid() && Prepared(lineAddr, victim)
      ensures victim < g.lines && wbLineAddr == addrs[victim]
      ensures lastCandIdx < cands
    {
      var candidates := new Walk[cands + g.ways](_ => Walk(0, 0, -1));
      var num, c, fringe := WalkFrom(lineAddr, candidates);
      var best: nat :| best < num;
      victim := candidates[best].lineId;
      var minIdx := FirstWithLine(candidates, best);
      assert First(c, minIdx) && c[minIdx].lineId == victim;
      lastCandIdx := minIdx;
      FillSwaps(lineAddr, candidates, minIdx, c, fringe);
      wbLineAddr := addrs[victim];
    }

    /** Moves the lines along the chain, the victim's line to its end. */
    method MoveLines(candidate: nat)
      requires lookupArray != swapArray && 0 < swapArrayLen <= swapArray.Length
      requires forall i | 0 <= i < swapArrayLen ::
          swapArray[i] < lookupArray.Length && swapArray[i] in ord && ord[swapArray[i]] == i
      requires lookupArray[swapArray[0]] == candidate
      modifies lookupArray
      ensures Shifted(old(lookupArray[..]), swapArray[..swapArrayLen], ord, lookupArray[..])
    {
      ghost var lookup := lookupArray[..];
      for i := 0 to swapArrayLen - 1
        invariant forall k | 0 <= k < i :: lookupArray[swapArray[k]] == lookup[swapArray[k + 1]]
        invariant forall p | 0 <= p < lookupArray.Length && (p !in ord || ord[p] >= i) :: lookupArray[p] == lookup[p]
      {
        lookupArray[swapArray[i]] := lookupArray[swapArray[i + 1]];
      }
      lookupArray[swapArray[swapArrayLen - 1]] := candidate;
    }

    /** Stores the new address in the victim's line: lookups lose the victim and gain the new address. */
    method Postinsert(lineAddr: nat, candidate: nat)
      requires Valid() && Prepared(lineAddr, candidate) && lineAddr != 0 && lineAddr !in where
      modifies addrs, lookupArray, `at, `where
      ensures Valid() && where == Rebound(old(where), lineAddr, candidate)
      ensures addrs[..] == old(addrs[..])[candidate := lineAddr]
    {
      ghost var lines, lookup, swap := addrs[..], lookupArray[..], swapArray[..swapArrayLen];
      assert forall i | 0 <= i < swapArrayLen :: swap[i] == swapArray[i];
      MoveLines(candidate);
      addrs[candidate] := lineAddr;
      InsertKeepsConsistent(g, lines, lookup, at, where, lineAddr, swap, ord, candidate, lookupArray[..]);
      at, where := MovedTo(at, swap, ord), Rebound(where, lineAddr, candidate);
      assert addrs[..] == lines[candidate := lineAddr];
    }
  }
}
