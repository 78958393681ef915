/** What the zcache walk and its chain of moves mean: positions, candidates, and the map that lookups see. */
module ZWalk {
  import opened AddressMap
  import opened Arithmetic

  /** A walk candidate: its position, the line there, and the candidate it was reached from (-1 for a seed). */
  datatype Walk = Walk(pos: nat, lineId: nat, parentIdx: int)

  /** pos(w, a): the position of address a in way w. Ways do not share positions. */
  datatype Geometry = Geometry(ways: nat, lines: nat, pos: (nat, nat) -> nat)
  {
    ghost predicate Ok() {
      && ways > 1
      && (forall w: nat, a: nat | w < ways :: pos(w, a) < lines)
      && (forall w: nat, a: nat, v: nat, b: nat | w < ways && v < ways && w != v :: pos(w, a) != pos(v, b))
    }

    /** p is one of the positions of address a. */
    ghost predicate Home(a: nat, p: nat) {
      exists w: nat :: w < ways && pos(w, a) == p
    }
  }

  /** The positions that the source computes from a hash family, with numSets a power of two standing for its mask. */
  function Hashed(ways: nat, numSets: nat, hash: (nat, nat) -> nat): Geometry
    requires numSets > 0
  {
    Geometry(ways, ways * numSets, (w: nat, a: nat) => w * numSets + hash(w, a) % numSets)
  }

  lemma HashedOk(ways: nat, numSets: nat, hash: (nat, nat) -> nat)
    requires ways > 1 && numSets > 0
    ensures Hashed(ways, numSets, hash).Ok()
  {
    var g := Hashed(ways, numSets, hash);
    forall w: nat, a: nat | w < ways ensures g.pos(w, a) < g.lines {
      InWay(w, numSets, hash(w, a) % numSets, ways);
    }
    forall w: nat, a: nat, v: nat, b: nat | w < ways && v < ways && w != v ensures g.pos(w, a) != g.pos(v, b) {
      if w < v {
        InWay(w, numSets, hash(w, a) % numSets, v);
      } else {
        InWay(v, numSets, hash(v, b) % numSets, w);
      }
    }
  }

  lemma {:induction false} InWay(w: nat, numSets: nat, h: nat, v: nat)
    requires w < v && h < numSets
    ensures w * numSets + h < v * numSets
    decreases v
  {
    if v == w + 1 {
      assert v * numSets == w * numSets + numSets;
    } else {
      InWay(w, numSets, h, v - 1);
      assert v * numSets == (v - 1) * numSets + numSets;
    }
  }

  /** Positions and lines correspond one to one (at is the inverse of lookup), every line sits at a home of
      its address, and `where` is the address map. */
  ghost predicate Consistent(g: Geometry, addrs: seq<nat>, lookup: seq<nat>, at: seq<nat>, where: map<nat, nat>)
  {
    && g.Ok() && |addrs| == |lookup| == |at| == g.lines
    && Paired(lookup, at)
    && (forall l | 0 <= l < g.lines :: addrs[l] != 0 ==> g.Home(addrs[l], at[l]))
    && Inverse(where, addrs)
  }

  ghost predicate Paired(lookup: seq<nat>, at: seq<nat>)
    requires |lookup| == |at|
  {
    && (forall p | 0 <= p < |at| :: lookup[p] < |at| && at[lookup[p]] == p)
    && (forall l | 0 <= l < |at| :: at[l] < |at| && lookup[at[l]] == l)
  }

  /** A stored address is found at one of its positions. */
  lemma AtSomeHome(g: Geometry, addrs: seq<nat>, lookup: seq<nat>, at: seq<nat>, where: map<nat, nat>, a: nat)
    requires Consistent(g, addrs, lookup, at, where)
    ensures a in where ==> exists w: nat :: w < g.ways && addrs[lookup[g.pos(w, a)]] == a
  {
    if a in where {
      var l := where[a];
      assert g.Home(addrs[l], at[l]);
    }
  }

  // ---- the walk

  /** c is a walk for address a whose candidates before `fringe` may have children. */
  ghost predicate Walked(g: Geometry, addrs: seq<nat>, lookup: seq<nat>, a: nat, c: seq<Walk>, fringe: nat)
    requires |addrs| == |lookup| == g.lines
  {
    && g.ways <= |c|
    && (forall j | 0 <= j < |c| :: c[j].pos < g.lines && c[j].lineId == lookup[c[j].pos] < g.lines)
    && (forall j | 0 <= j < g.ways :: c[j].parentIdx == -1 && c[j].pos == g.pos(j, a))
    && (forall j {:trigger Child(g, addrs, c, fringe, j)} | g.ways <= j < |c| :: Child(g, addrs, c, fringe, j))
    && (forall i, j | g.ways <= i <= j < |c| :: c[i].parentIdx <= c[j].parentIdx)
  }

  /** Candidate j was reached from an earlier one, at least `ways` back, by a position of the address found there. */
  ghost predicate Child(g: Geometry, addrs: seq<nat>, c: seq<Walk>, fringe: nat, j: nat) {
    && j < |c| && 0 <= c[j].parentIdx < fringe && c[j].parentIdx + g.ways <= j
    && c[j].lineId != c[c[j].parentIdx].lineId < |addrs|
    && g.Home(addrs[c[c[j].parentIdx].lineId], c[j].pos)
  }

  /** Every way of candidate f's address was followed: it leads back to f's line or to a child of f. */
  ghost predicate Expanded(g: Geometry, addrs: seq<nat>, lookup: seq<nat>, c: seq<Walk>, f: nat, ways: nat)
    requires |addrs| == |lookup| == g.lines
  {
    && f < |c| && c[f].lineId < g.lines
    && forall w: nat | w < ways :: Followed(g, addrs, lookup, c, f, g.pos(w, addrs[c[f].lineId]))
  }

  ghost predicate Followed(g: Geometry, addrs: seq<nat>, lookup: seq<nat>, c: seq<Walk>, f: nat, p: nat)
    requires |addrs| == |lookup| == g.lines && f < |c| && c[f].lineId < g.lines
  {
    p < g.lines && (lookup[p] == c[f].lineId || exists j :: g.ways <= j < |c| && c[j].parentIdx == f && c[j].pos == p)
  }

  ghost predicate AllExpanded(g: Geometry, addrs: seq<nat>, lookup: seq<nat>, c: seq<Walk>, fringe: nat)
    requires |addrs| == |lookup| == g.lines
  {
    forall f: nat {:trigger Expanded(g, addrs, lookup, c, f, g.ways)} | f < fringe ::
      Expanded(g, addrs, lookup, c, f, g.ways)
  }

  /** Every candidate's line holds an address. */
  ghost predicate Occupied(addrs: seq<nat>, c: seq<Walk>) {
    forall j | 0 <= j < |c| :: c[j].lineId < |addrs| && addrs[c[j].lineId] != 0
  }

  /** A longer walk still follows everything that the shorter one did. */
  lemma FollowedGrows(g: Geometry, addrs: seq<nat>, lookup: seq<nat>, c: seq<Walk>, x: Walk, f: nat, p: nat)
    requires |addrs| == |lookup| == g.lines && f < |c| && c[f].lineId < g.lines
    requires Followed(g, addrs, lookup, c, f, p)
    ensures Followed(g, addrs, lookup, c + [x], f, p)
  {
    if lookup[p] != c[f].lineId {
      var j :| g.ways <= j < |c| && c[j].parentIdx == f && c[j].pos == p;
      assert (c + [x])[j] == c[j];
    }
  }

  lemma ExpandedGrows(g: Geometry, addrs: seq<nat>, lookup: seq<nat>, c: seq<Walk>, x: Walk, f: nat, ways: nat)
    requires |addrs| == |lookup| == g.lines && f < |c| && c[f].lineId < g.lines
    requires Expanded(g, addrs, lookup, c, f, ways)
    ensures Expanded(g, addrs, lookup, c + [x], f, ways)
  {
    forall w: nat | w < ways ensures Followed(g, addrs, lookup, c + [x], f, g.pos(w, addrs[c[f].lineId])) {
      FollowedGrows(g, addrs, lookup, c, x, f, g.pos(w, addrs[c[f].lineId]));
    }
  }

  lemma AllExpandedGrows(g: Geometry, addrs: seq<nat>, lookup: seq<nat>, c: seq<Walk>, x: Walk, fringe: nat)
    requires |addrs| == |lookup| == g.lines && AllExpanded(g, addrs, lookup, c, fringe)
    ensures AllExpanded(g, addrs, lookup, c + [x], fringe)
  {
    forall f: nat | f < fringe ensures Expanded(g, addrs, lookup, c + [x], f, g.ways) {
      assert Expanded(g, addrs, lookup, c, f, g.ways);
      ExpandedGrows(g, addrs, lookup, c, x, f, g.ways);
    }
  }

  ghost predicate WayBack(g: Geometry, addrs: seq<nat>, lookup: seq<nat>, l: nat, w: nat)
    requires |addrs| == |lookup| == g.lines && l < g.lines
  {
    var pos := g.pos(w, addrs[l]);
    pos < g.lines && lookup[pos] == l
  }

  /** Exactly one way of a stored address leads back to its own line, so an expansion adds ways - 1 candidates. */
  lemma OneWayBack(g: Geometry, addrs: seq<nat>, lookup: seq<nat>, at: seq<nat>, where: map<nat, nat>, l: nat)
    returns (k: nat)
    requires Consistent(g, addrs, lookup, at, where) && l < g.lines && addrs[l] != 0
    ensures k < g.ways && forall w: nat | w < g.ways :: WayBack(g, addrs, lookup, l, w) <==> w == k
  {
    assert g.Home(addrs[l], at[l]);
    k :| k < g.ways && g.pos(k, addrs[l]) == at[l];
    forall w: nat | w < g.ways ensures WayBack(g, addrs, lookup, l, w) <==> w == k {
      if WayBack(g, addrs, lookup, l, w) {
        assert g.pos(w, addrs[l]) == at[l];
      }
    }
  }

  /** One more child for candidate f. */
  lemma WalkedGrows(g: Geometry, addrs: seq<nat>, lookup: seq<nat>, a: nat, c: seq<Walk>, f: nat, w: nat, x: Walk)
    requires g.Ok() && |addrs| == |lookup| == g.lines && Walked(g, addrs, lookup, a, c, f + 1)
    requires f + g.ways <= |c| && w < g.ways && x.pos == g.pos(w, addrs[c[f].lineId])
    requires x.lineId == lookup[x.pos] < g.lines && x.parentIdx == f && x.lineId != c[f].lineId
    ensures Walked(g, addrs, lookup, a, c + [x], f + 1)
  {
    var d := c + [x];
    assert g.Home(addrs[c[f].lineId], x.pos);
    forall j {:trigger Child(g, addrs, d, f + 1, j)} | g.ways <= j < |d| ensures Child(g, addrs, d, f + 1, j) {
      assert j < |c| ==> Child(g, addrs, c, f + 1, j);
    }
    forall j: nat | g.ways <= j < |c| ensures c[j].parentIdx <= f {
      assert Child(g, addrs, c, f + 1, j);
    }
  }

  lemma ExpandedStep(g: Geometry, addrs: seq<nat>, lookup: seq<nat>, c: seq<Walk>, f: nat, w: nat, x: Walk)
    requires |addrs| == |lookup| == g.lines && f < |c| && c[f].lineId < g.lines && g.ways <= |c|
    requires Expanded(g, addrs, lookup, c, f, w)
    requires x.pos == g.pos(w, addrs[c[f].lineId]) < g.lines && x.parentIdx == f
    ensures Expanded(g, addrs, lookup, c + [x], f, w + 1)
  {
    ExpandedGrows(g, addrs, lookup, c, x, f, w);
    assert (c + [x])[|c|] == x;
    assert Followed(g, addrs, lookup, c + [x], f, x.pos);
  }

  /** Candidate f's expansion after w ways, k being the way that leads back to its own line. */
  ghost predicate Expanding(g: Geometry, addrs: seq<nat>, lookup: seq<nat>, a: nat, c: seq<Walk>, f: nat, w: nat,
                            k: nat, start: seq<Walk>)
    requires |addrs| == |lookup| == g.lines
  {
    && f + g.ways <= |start| && f < |start| <= |c| && w <= g.ways && |c| == |start| + w - (if k < w then 1 else 0)
    && (forall j | 0 <= j < |start| :: c[j] == start[j])
    && Walked(g, addrs, lookup, a, c, f + 1) && AllExpanded(g, addrs, lookup, c, f)
    && Expanded(g, addrs, lookup, c, f, w) && k < g.ways
    && forall v: nat | v < g.ways :: WayBack(g, addrs, lookup, c[f].lineId, v) <==> v == k
  }

  /** The walk after candidate f's way w was looked at: the line there, unless that is f's own line again. */
  ghost function Visited(g: Geometry, addrs: seq<nat>, lookup: seq<nat>, c: seq<Walk>, f: nat, w: nat): seq<Walk>
    requires |addrs| == |lookup| == g.lines && f < |c| && c[f].lineId < g.lines
    requires g.pos(w, addrs[c[f].lineId]) < g.lines
  {
    var pos := g.pos(w, addrs[c[f].lineId]);
    if lookup[pos] == c[f].lineId then c else c + [Walk(pos, lookup[pos], f)]
  }

  lemma ExpandStep(g: Geometry, addrs: seq<nat>, lookup: seq<nat>, a: nat, c: seq<Walk>, f: nat, w: nat, k: nat,
                   start: seq<Walk>)
    requires g.Ok() && |addrs| == |lookup| == g.lines && (forall p | 0 <= p < g.lines :: lookup[p] < g.lines)
    requires Expanding(g, addrs, lookup, a, c, f, w, k, start) && w < g.ways && addrs[c[f].lineId] != 0
    ensures Expanding(g, addrs, lookup, a, Visited(g, addrs, lookup, c, f, w), f, w + 1, k, start)
    ensures Occupied(addrs, Visited(g, addrs, lookup, c, f, w))
      <==> Occupied(addrs, c) && addrs[lookup[g.pos(w, addrs[c[f].lineId])]] != 0
  {
    var pos := g.pos(w, addrs[c[f].lineId]);
    assert WayBack(g, addrs, lookup, c[f].lineId, w) <==> lookup[pos] == c[f].lineId;
    if lookup[pos] == c[f].lineId {
      assert Followed(g, addrs, lookup, c, f, pos);
    } else {
      var x := Walk(pos, lookup[pos], f);
      WalkedGrows(g, addrs, lookup, a, c, f, w, x);
      AllExpandedGrows(g, addrs, lookup, c, x, f);
      ExpandedStep(g, addrs, lookup, c, f, w, x);
      OccupiedGrows(addrs, c, x);
    }
  }

  lemma ExpandStart(g: Geometry, addrs: seq<nat>, lookup: seq<nat>, at: seq<nat>, where: map<nat, nat>,
                    a: nat, c: seq<Walk>, f: nat) returns (k: nat)
    requires Consistent(g, addrs, lookup, at, where) && f + g.ways <= |c|
    requires Walked(g, addrs, lookup, a, c, f) && AllExpanded(g, addrs, lookup, c, f) && Occupied(addrs, c)
    ensures Expanding(g, addrs, lookup, a, c, f, 0, k, c)
  {
    k := OneWayBack(g, addrs, lookup, at, where, c[f].lineId);
    forall j {:trigger Child(g, addrs, c, f + 1, j)} | g.ways <= j < |c| ensures Child(g, addrs, c, f + 1, j) {
      assert Child(g, addrs, c, f, j);
    }
  }

  /** Once all ways were followed, candidate f is expanded too, with exactly ways - 1 children. */
  lemma ExpandEnd(g: Geometry, addrs: seq<nat>, lookup: seq<nat>, a: nat, c: seq<Walk>, f: nat, k: nat,
                  start: seq<Walk>)
    requires |addrs| == |lookup| == g.lines && Expanding(g, addrs, lookup, a, c, f, g.ways, k, start)
    ensures |c| == |start| + g.ways - 1 && Walked(g, addrs, lookup, a, c, f + 1)
    ensures AllExpanded(g, addrs, lookup, c, f + 1)
  {
    forall e: nat | e < f + 1 ensures Expanded(g, addrs, lookup, c, e, g.ways) {
      assert e <= f;
    }
  }

  lemma OccupiedGrows(addrs: seq<nat>, c: seq<Walk>, x: Walk)
    requires x.lineId < |addrs|
    ensures Occupied(addrs, c + [x]) <==> Occupied(addrs, c) && addrs[x.lineId] != 0
  {
    var d := c + [x];
    assert d[|c|] == x;
    assert forall j | 0 <= j < |c| :: d[j] == c[j];
  }

  /** Candidate i is the first one with its line. */
  ghost predicate First(c: seq<Walk>, i: nat) {
    i < |c| && forall m | 0 <= m < i :: c[m].lineId != c[i].lineId
  }

  /** An earlier candidate m with the same line as i's parent has a child at i's position, before i. */
  lemma EarlierVisit(g: Geometry, addrs: seq<nat>, lookup: seq<nat>, a: nat, c: seq<Walk>, fringe: nat, i: nat, m: nat)
    requires g.Ok() && |addrs| == |lookup| == g.lines && Walked(g, addrs, lookup, a, c, fringe)
    requires AllExpanded(g, addrs, lookup, c, fringe)
    requires i < |c| && 0 <= c[i].parentIdx && c[i].parentIdx < |c| && m < c[i].parentIdx
    requires c[m].lineId == c[c[i].parentIdx].lineId
    ensures exists j :: 0 <= j < i && c[j].lineId == c[i].lineId
  {
    assert Child(g, addrs, c, fringe, i);
    var q := c[i].parentIdx;
    var w: nat :| w < g.ways && g.pos(w, addrs[c[q].lineId]) == c[i].pos;
    assert Expanded(g, addrs, lookup, c, m, g.ways);
    assert Followed(g, addrs, lookup, c, m, c[i].pos);
    var j :| g.ways <= j < |c| && c[j].parentIdx == m && c[j].pos == c[i].pos;
    assert j < i;
  }

  /** If the walk reached candidate i first, it reached its parent first too: an earlier visit of the parent's
      line would have led to i's position earlier. */
  lemma FirstParent(g: Geometry, addrs: seq<nat>, lookup: seq<nat>, a: nat, c: seq<Walk>, fringe: nat, i: nat)
    requires g.Ok() && |addrs| == |lookup| == g.lines && Walked(g, addrs, lookup, a, c, fringe)
    requires AllExpanded(g, addrs, lookup, c, fringe)
    requires First(c, i) && 0 <= c[i].parentIdx
    ensures First(c, c[i].parentIdx)
  {
    assert Child(g, addrs, c, fringe, i);
    forall m | 0 <= m < c[i].parentIdx ensures c[m].lineId != c[c[i].parentIdx].lineId {
      if c[m].lineId == c[c[i].parentIdx].lineId {
        EarlierVisit(g, addrs, lookup, a, c, fringe, i, m);
      }
    }
  }

  /** One hop towards the seeds: the parent comes at least `ways` earlier, and is again the first with its line. */
  lemma HopStep(g: Geometry, addrs: seq<nat>, lookup: seq<nat>, a: nat, c: seq<Walk>, fringe: nat, i: nat)
    requires g.Ok() && |addrs| == |lookup| == g.lines && Walked(g, addrs, lookup, a, c, fringe)
    requires AllExpanded(g, addrs, lookup, c, fringe) && First(c, i)
    ensures c[i].parentIdx == -1 || (0 <= c[i].parentIdx <= i - g.ways && First(c, c[i].parentIdx))
  {
    if i >= g.ways {
      assert Child(g, addrs, c, fringe, i);
      FirstParent(g, addrs, lookup, a, c, fringe, i);
    }
  }

  // ---- the chain of swaps

  /** swap[0] is the victim's position, the last one a home of the new address, and each line moves into the
      previous position, which is a home of its address. No position repeats (ord is its inverse). */
  ghost predicate Chain(g: Geometry, addrs: seq<nat>, lookup: seq<nat>, a: nat, swap: seq<nat>, ord: map<nat, nat>,
                        victim: nat)
    requires |addrs| == |lookup| == g.lines
  {
    && |swap| > 0
    && (forall i | 0 <= i < |swap| :: swap[i] < g.lines && swap[i] in ord && ord[swap[i]] == i)
    && (forall p | p in ord :: ord[p] < |swap| && swap[ord[p]] == p)
    && lookup[swap[0]] == victim
    && (forall i | 0 < i < |swap| :: lookup[swap[i]] < g.lines && g.Home(addrs[lookup[swap[i]]], swap[i - 1]))
    && g.Home(a, swap[|swap| - 1])
  }

  /** lookup after the swaps: position swap[i] gets the line of swap[i + 1], the last one gets the victim's line. */
  ghost predicate Shifted(lookup: seq<nat>, swap: seq<nat>, ord: map<nat, nat>, lookup': seq<nat>)
  {
    && |lookup'| == |lookup| && |swap| > 0
    && (forall i | 0 <= i < |swap| :: swap[i] < |lookup|)
    && (forall i | 0 <= i < |swap| - 1 :: lookup'[swap[i]] == lookup[swap[i + 1]])
    && lookup'[swap[|swap| - 1]] == lookup[swap[0]]
    && (forall p | 0 <= p < |lookup| && p !in ord :: lookup'[p] == lookup[p])
  }

  ghost function MovedPos(p: nat, swap: seq<nat>, ord: map<nat, nat>): nat
    requires |swap| > 0 && forall q | q in ord :: ord[q] < |swap|
  {
    if p !in ord then p else if ord[p] == 0 then swap[|swap| - 1] else swap[ord[p] - 1]
  }

  ghost function MovedTo(at: seq<nat>, swap: seq<nat>, ord: map<nat, nat>): (at': seq<nat>)
    requires |swap| > 0 && forall p | p in ord :: ord[p] < |swap|
    ensures |at'| == |at| && forall l | 0 <= l < |at| :: at'[l] == MovedPos(at[l], swap, ord)
  {
    seq(|at|, l requires 0 <= l < |at| => MovedPos(at[l], swap, ord))
  }

  /** After the swaps, position p holds a line that now counts p as its position. */
  lemma MovedPosition(g: Geometry, addrs: seq<nat>, lookup: seq<nat>, at: seq<nat>, where: map<nat, nat>,
                      a: nat, swap: seq<nat>, ord: map<nat, nat>, victim: nat, lookup': seq<nat>, p: nat)
    requires Consistent(g, addrs, lookup, at, where) && p < g.lines
    requires Chain(g, addrs, lookup, a, swap, ord, victim) && Shifted(lookup, swap, ord, lookup')
    ensures lookup'[p] < g.lines && MovedPos(at[lookup'[p]], swap, ord) == p
  {
    if p in ord {
      var i := ord[p];
      assert swap[i] == p;
      var from := if i < |swap| - 1 then swap[i + 1] else swap[0];
      assert lookup'[p] == lookup[from] && at[lookup[from]] == from;
    }
  }

  /** Line l is found at its new position, which is a home of its address. */
  lemma MovedLine(g: Geometry, addrs: seq<nat>, lookup: seq<nat>, at: seq<nat>, where: map<nat, nat>,
                  a: nat, swap: seq<nat>, ord: map<nat, nat>, victim: nat, lookup': seq<nat>, l: nat)
    requires Consistent(g, addrs, lookup, at, where) && l < g.lines
    requires Chain(g, addrs, lookup, a, swap, ord, victim) && Shifted(lookup, swap, ord, lookup')
    ensures MovedPos(at[l], swap, ord) < g.lines && lookup'[MovedPos(at[l], swap, ord)] == l
    ensures l != victim && addrs[l] != 0 ==> g.Home(addrs[l], MovedPos(at[l], swap, ord))
    ensures l == victim ==> g.Home(a, MovedPos(at[l], swap, ord))
  {
    var p := at[l];
    if p in ord {
      var i := ord[p];
      assert swap[i] == p && lookup[p] == l;
      if i > 0 {
        assert lookup'[swap[i - 1]] == lookup[swap[i]];
        assert at[lookup[swap[0]]] == swap[0];
      }
    } else {
      assert at[lookup[swap[0]]] == swap[0];
    }
  }

  /** The candidates that the swap buffer was filled from: each one is the parent of the one before. */
  ghost predicate Linked(c: seq<Walk>, path: seq<nat>, swap: seq<nat>, ord: map<nat, nat>) {
    && |path| == |swap|
    && (forall i | 0 <= i < |path| :: First(c, path[i]) && swap[i] == c[path[i]].pos)
    && (forall i | 0 <= i < |path| :: swap[i] in ord && ord[swap[i]] == i)
    && (forall p | p in ord :: ord[p] < |swap| && swap[ord[p]] == p)
    && (forall i {:trigger Hop(c, path, i)} | 0 < i < |path| :: Hop(c, path, i))
  }

  ghost predicate Hop(c: seq<Walk>, path: seq<nat>, i: nat) {
    0 < i < |path| && path[i - 1] < |c| && path[i] == c[path[i - 1]].parentIdx
  }

  /** The parent's position was not met on the way: it would be an earlier visit of a line already on the path. */
  lemma LinkParent(g: Geometry, addrs: seq<nat>, lookup: seq<nat>, a: nat, c: seq<Walk>, fringe: nat,
                   path: seq<nat>, swap: seq<nat>, ord: map<nat, nat>, idx: nat)
    requires |addrs| == |lookup| == g.lines && Walked(g, addrs, lookup, a, c, fringe)
    requires Linked(c, path, swap, ord) && First(c, idx) && forall i | 0 <= i < |path| :: idx < path[i]
    requires |path| > 0 ==> idx == c[path[|path| - 1]].parentIdx
    ensures Linked(c, path + [idx], swap + [c[idx].pos], ord[c[idx].pos := |swap|])
  {
    var p, path' := c[idx].pos, path + [idx];
    forall i: nat | i < |path| ensures swap[i] != p {
      assert First(c, path[i]) && c[path[i]].lineId == lookup[swap[i]];
    }
    forall i: nat | 0 < i < |path'| ensures Hop(c, path', i) {
      assert i < |path| ==> Hop(c, path, i);
    }
  }

  /** The climb from the chosen candidate to a seed has reached idx. */
  ghost predicate Climbing(g: Geometry, c: seq<Walk>, minIdx: nat, idx: int, path: seq<nat>, swap: seq<nat>,
                           ord: map<nat, nat>) {
    && -1 <= idx <= minIdx && Linked(c, path, swap, ord)
    && (forall i | 0 <= i < |path| :: idx < path[i])
    && (|path| == 0 ==> idx == minIdx)
    && (|path| > 0 ==> path[0] == minIdx && First(c, path[|path| - 1]) && idx == c[path[|path| - 1]].parentIdx)
    && (idx >= 0 ==> First(c, idx) && |path| * g.ways <= minIdx - idx)
  }

  lemma ClimbStep(g: Geometry, addrs: seq<nat>, lookup: seq<nat>, a: nat, c: seq<Walk>, fringe: nat,
                  minIdx: nat, idx: nat, path: seq<nat>, swap: seq<nat>, ord: map<nat, nat>)
    requires g.Ok() && |addrs| == |lookup| == g.lines && Walked(g, addrs, lookup, a, c, fringe)
    requires AllExpanded(g, addrs, lookup, c, fringe) && Climbing(g, c, minIdx, idx, path, swap, ord)
    ensures Climbing(g, c, minIdx, c[idx].parentIdx, path + [idx], swap + [c[idx].pos], ord[c[idx].pos := |swap|])
  {
    HopStep(g, addrs, lookup, a, c, fringe, idx);
    LinkParent(g, addrs, lookup, a, c, fringe, path, swap, ord, idx);
    hide Walked, AllExpanded, Linked, First;
    Distribute(|path|, 1, g.ways);
  }

  lemma LinkedIsChain(g: Geometry, addrs: seq<nat>, lookup: seq<nat>, a: nat, c: seq<Walk>, fringe: nat,
                      path: seq<nat>, swap: seq<nat>, ord: map<nat, nat>)
    requires |addrs| == |lookup| == g.lines && Walked(g, addrs, lookup, a, c, fringe)
    requires Linked(c, path, swap, ord) && |path| > 0 && c[path[|path| - 1]].parentIdx == -1
    ensures Chain(g, addrs, lookup, a, swap, ord, c[path[0]].lineId)
  {
    forall i | 0 < i < |swap| ensures lookup[swap[i]] < g.lines && g.Home(addrs[lookup[swap[i]]], swap[i - 1]) {
      var child, parent := path[i - 1], path[i];
      assert Hop(c, path, i) && First(c, child) && First(c, parent);
      assert Child(g, addrs, c, fringe, child);
    }
    var seed := path[|path| - 1];
    assert First(c, seed);
    assert seed < g.ways || Child(g, addrs, c, fringe, seed);
  }

  /** The insertion keeps the array consistent: lookups see the old map with the victim rebound to the new address. */
  lemma InsertKeepsConsistent(g: Geometry, addrs: seq<nat>, lookup: seq<nat>, at: seq<nat>, where: map<nat, nat>,
                              a: nat, swap: seq<nat>, ord: map<nat, nat>, victim: nat, lookup': seq<nat>)
    requires Consistent(g, addrs, lookup, at, where) && a != 0 && a !in where
    requires Chain(g, addrs, lookup, a, swap, ord, victim) && Shifted(lookup, swap, ord, lookup')
    ensures Consistent(g, addrs[victim := a], lookup', MovedTo(at, swap, ord), Rebound(where, a, victim))
  {
    var at' := MovedTo(at, swap, ord);
    assert Paired(lookup', at') by {
      forall p | 0 <= p < g.lines ensures lookup'[p] < g.lines && at'[lookup'[p]] == p {
        MovedPosition(g, addrs, lookup, at, where, a, swap, ord, victim, lookup', p);
      }
      forall l | 0 <= l < g.lines ensures at'[l] < g.lines && lookup'[at'[l]] == l {
        MovedLine(g, addrs, lookup, at, where, a, swap, ord, victim, lookup', l);
      }
    }
    var addrs' := addrs[victim := a];
    forall l | 0 <= l < g.lines && addrs'[l] != 0 ensures g.Home(addrs'[l], at'[l]) {
      MovedLine(g, addrs, lookup, at, where, a, swap, ord, victim, lookup', l);
    }
    RebindKeepsInverse(where, addrs, a, victim);
  }

  /** Swaps never outgrow the buffer: hops go back at least `ways` candidates. */
  lemma HopBound(hops: nat, ways: nat, cands: nat)
    requires ways > 0 && hops * ways < cands
    ensures hops <= cands / ways
  {
    assert cands == cands / ways * ways + cands % ways;
    if cands / ways < hops {
      MulMono(cands / ways + 1, hops, ways);
    }
  }
}
