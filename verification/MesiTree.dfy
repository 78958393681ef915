/** One cache line in an inclusive tree of caches under the MESI protocol of src/coherence_ctrls.{h,cpp}: the state
    in each cache, the directories, the requests on their way up, and what must hold of them. */
module MesiTree {
  import opened Coherence
  import opened Options
  import opened Sets

  datatype AccessType = GETS | GETX | PUTS | PUTX
  datatype InvType = INV | INVX

  /** A request that a cache sent to its parent; its state when it did; and whether it refuses the E state. */
  datatype Request = Request(kind: AccessType, initial: MESIState, noExcl: bool)

  /** Node 0 is the cache next to memory, and parents have smaller numbers than their children. A cache whose own
      request is on its way for a child's sake is serving that child. The simulator moves no data, only flags and
      requests; here each copy and memory also have a version of the data, the number of the write that made it, which
      goes where those say. The number of the last write is kept for comparison. */
  datatype Tree = Tree(parent: seq<nat>, st: seq<MESIState>, dir: seq<Entry>, pend: seq<Option<Request>>,
                       serving: seq<Option<nat>>, ver: seq<nat>, mem: nat, last: nat)
  {
    ghost predicate Shape() {
      && |parent| > 0 && |st| == |dir| == |pend| == |serving| == |ver| == |parent|
      && (forall c: nat | 0 < c < |parent| :: parent[c] < c)
    }

    predicate IsChild(p: nat, c: nat) {
      0 < c < |parent| && parent[c] == p
    }

    /** m is n or below it. */
    ghost predicate InSub(n: nat, m: nat)
      requires Shape()
      decreases m
    {
      m < |parent| && (m == n || (n < m && InSub(n, parent[m])))
    }

    /** The child of n on the way down to m. */
    ghost function Via(n: nat, m: nat): nat
      requires Shape()
      decreases m
    {
      if m == 0 || m >= |parent| then 0 else if parent[m] == n then m else Via(n, parent[m])
    }

    ghost predicate DirShape(n: nat)
      requires Shape() && n < |parent|
    {
      && dir[n].numSharers == |dir[n].sharers|
      && (forall c | c in dir[n].sharers :: IsChild(n, c) && c in dir[n].owners)
      && (dir[n].numSharers > 1 ==> !dir[n].exclusive)
    }

    /** What a child's state, its parent's state and its parent's directory say about each other. */
    ghost predicate ChildOk(c: nat)
      requires Shape() && 0 < c < |parent|
    {
      var p := parent[c];
      && (c in dir[p].sharers <==> st[c] != I)
      && (c in dir[p].sharers ==> (dir[p].IsExclusive() <==> HasExclusive(st[c])))
      && (st[c] != I ==> st[p] != I)
      && (HasExclusive(st[c]) ==> HasExclusive(st[p]))
    }

    /** The cache c has sent this kind of request up for its child d. */
    predicate Serves(c: nat, d: nat, kind: AccessType)
      requires |pend| == |parent|
    {
      IsChild(c, d) && pend[d].Some? && pend[d].value.kind == kind
    }

    /** A pending request still fits the cache's state, except for the races that the check at the parent repairs. */
    ghost predicate PendOk(c: nat)
      requires Shape() && c < |parent|
    {
      match pend[c]
      case None => serving[c] == None
      case Some(r) =>
        && Fits(r, st[c]) && (c == 0 ==> st[c] == r.initial)  // nobody invalidates the cache next to memory
        && (r.kind == PUTS || r.kind == PUTX ==> dir[c].sharers == {} && serving[c] == None)
        && (serving[c].Some? ==> Serves(c, serving[c].value, r.kind))
    }

    ghost predicate Inv() {
      && Shape()
      && (forall n: nat | n < |parent| :: DirShape(n))
      && (forall c: nat | 0 < c < |parent| :: ChildOk(c))
      && (forall c: nat | c < |parent| :: PendOk(c))
    }

    /** The invariant on the nodes of one subtree. */
    ghost predicate SubInv(n: nat)
      requires Shape()
    {
      && (forall m: nat | InSub(n, m) :: DirShape(m))
      && (forall m: nat | InSub(n, m) && m != n :: ChildOk(m))
    }
  }

  /** The states a waiting request can find its cache in: the initial one, or what invalidations made of it. */
  predicate Fits(r: Request, x: MESIState) {
    match r.kind
    case GETS => r.initial == I && x == I
    case GETX => (r.initial == I || r.initial == S) && (x == r.initial || x == I)
    case PUTS => (r.initial == S || r.initial == E) && (x == r.initial || x == S || x == I)
    case PUTX => r.initial == M && (x == M || x == S || x == I)
  }

  // ---- the race check at the parent

  /** How the check leaves a request: skipped, passed on with this type, or a failed assert or panic. */
  datatype RaceOutcome = Skip | Go(kind: AccessType) | Broken

  function CheckForMESIRace(kind: AccessType, state: MESIState, initial: MESIState): RaceOutcome {
    if state == initial then Go(kind)
    else if kind == PUTS || kind == PUTX then
      if state == I then Skip else if state == S then Go(PUTS) else Broken
    else if kind == GETX then
      if initial == S && state == I then Go(GETX) else Broken
    else Broken
  }

  /** In reachable states the check never breaks; it skips exactly the writebacks of lines that were invalidated
      meanwhile, and what it passes on fits the state that the requester has now. */
  lemma RaceCheckRepairs(t: Tree, c: nat)
    requires t.Inv() && c < |t.parent| && t.pend[c].Some?
    ensures var r := t.pend[c].value;
      var o := CheckForMESIRace(r.kind, t.st[c], r.initial);
      && !o.Broken?
      && (o.Skip? <==> (r.kind == PUTS || r.kind == PUTX) && t.st[c] == I)
      && (o.Go? ==>
            match o.kind
            case GETS => t.st[c] == I
            case GETX => t.st[c] == I || t.st[c] == S
            case PUTS => t.st[c] == S || t.st[c] == E
            case PUTX => t.st[c] == M)
      && (o.Go? && o.kind != r.kind ==> r.kind == PUTX && t.st[c] == S)
  {
    assert t.PendOk(c);
  }

  // ---- subtrees

  lemma {:induction false} ViaChild(t: Tree, n: nat, m: nat)
    requires t.Shape() && t.InSub(n, m) && m != n
    ensures t.IsChild(n, t.Via(n, m)) && t.InSub(t.Via(n, m), m) && n < t.Via(n, m) <= m
    decreases m
  {
    if t.parent[m] != n {
      ViaChild(t, n, t.parent[m]);
    }
  }

  lemma {:induction false} SubOfChild(t: Tree, n: nat, d: nat, m: nat)
    requires t.Shape() && t.IsChild(n, d) && t.InSub(d, m)
    ensures t.InSub(n, m) && n < m && t.Via(n, m) == d
    decreases m
  {
    if m != d {
      SubOfChild(t, n, d, t.parent[m]);
    }
  }

  /** Inclusion: a valid copy below has valid copies all the way up, and an exclusive one exclusive ones. */
  lemma {:induction false} Inclusion(t: Tree, n: nat, m: nat)
    requires t.Inv() && t.InSub(n, m)
    ensures t.st[m] != I ==> t.st[n] != I
    ensures HasExclusive(t.st[m]) ==> HasExclusive(t.st[n])
    decreases m
  {
    if m != n {
      assert t.ChildOk(m);
      Inclusion(t, n, t.parent[m]);
    }
  }

  /** Single writer: while one cache may write, no cache off its path to memory holds the line. */
  lemma SingleWriter(t: Tree, n: nat, a: nat, b: nat)
    requires t.Inv() && t.InSub(n, a) && t.InSub(n, b) && a != n && b != n && t.Via(n, a) != t.Via(n, b)
    ensures HasExclusive(t.st[a]) ==> t.st[b] == I
  {
    if HasExclusive(t.st[a]) {
      var x, y := t.Via(n, a), t.Via(n, b);
      ViaChild(t, n, a);
      ViaChild(t, n, b);
      Inclusion(t, x, a);
      Inclusion(t, y, b);
      assert t.ChildOk(x) && t.ChildOk(y) && t.DirShape(n);
      if y in t.dir[n].sharers {
        SubsetSize({x, y}, t.dir[n].sharers);
      }
    }
  }

  /** Below an invalid copy nothing is valid, and below a copy without exclusivity nothing is exclusive. */
  lemma {:induction false} SubStates(t: Tree, n: nat, m: nat)
    requires t.Shape() && t.SubInv(n) && t.InSub(n, m)
    ensures t.st[n] == I ==> t.st[m] == I && t.dir[m].sharers == {} && t.dir[m].numSharers == 0
    ensures !HasExclusive(t.st[n]) ==> !HasExclusive(t.st[m]) && !t.dir[m].IsExclusive()
    decreases m
  {
    assert t.DirShape(m);
    if m != n {
      assert t.ChildOk(m);
      SubStates(t, n, t.parent[m]);
    }
    forall c | c in t.dir[m].sharers
      ensures c < |t.parent| && t.st[c] != I && t.st[m] != I && (t.dir[m].IsExclusive() ==> HasExclusive(t.st[m]))
    {
      SubOfChild(t, m, c, c);
      SubTrans(t, n, m, c);
      assert t.ChildOk(c);
    }
    if t.dir[m].sharers == {} {
    } else {
      var c :| c in t.dir[m].sharers;
      assert t.st[m] != I;
    }
  }

  lemma {:induction false} SubTrans(t: Tree, a: nat, b: nat, c: nat)
    requires t.Shape() && t.InSub(a, b) && t.InSub(b, c)
    ensures t.InSub(a, c)
    decreases c
  {
    if b != c {
      SubTrans(t, a, b, t.parent[c]);
    }
  }

  /** A subtree's invariant is about its own nodes only. */
  lemma SubFrame(t: Tree, u: Tree, n: nat)
    requires t.Shape() && u.Shape() && t.parent == u.parent && t.SubInv(n)
    requires forall m: nat | t.InSub(n, m) :: t.st[m] == u.st[m] && t.dir[m] == u.dir[m]
    ensures u.SubInv(n)
  {
    SameSubs(t, u);
    forall m: nat | u.InSub(n, m) ensures u.DirShape(m) && (m != n ==> u.ChildOk(m)) {
      assert t.InSub(n, m) && t.DirShape(m);
      if m != n {
        assert t.ChildOk(m) && t.InSub(n, t.parent[m]);
      }
    }
  }

  lemma SameSubs(t: Tree, u: Tree)
    requires t.Shape() && u.Shape() && t.parent == u.parent
    ensures forall n: nat, m: nat :: t.InSub(n, m) <==> u.InSub(n, m)
    ensures forall n: nat, m: nat :: t.Via(n, m) == u.Via(n, m)
  {
    forall n: nat, m: nat ensures (t.InSub(n, m) <==> u.InSub(n, m)) && t.Via(n, m) == u.Via(n, m) {
      SameSub(t, u, n, m);
    }
  }

  lemma {:induction false} SameSub(t: Tree, u: Tree, n: nat, m: nat)
    requires t.Shape() && u.Shape() && t.parent == u.parent
    ensures t.InSub(n, m) <==> u.InSub(n, m)
    ensures t.Via(n, m) == u.Via(n, m)
    decreases m
  {
    if 0 < m < |t.parent| {
      SameSub(t, u, n, t.parent[m]);
    }
  }

  // ---- invalidations

  function HitState(k: InvType, x: MESIState): MESIState {
    if k == INV then I else if HasExclusive(x) then S else x
  }

  function HitDir(k: InvType, e: Entry): Entry {
    if k == INV then e.(numSharers := 0, sharers := {})
    else if e.IsExclusive() then e.(exclusive := false) else e
  }

  /** Somewhere in the subtree is a modified copy. */
  ghost predicate Dirty(t: Tree, n: nat)
    requires t.Shape()
  {
    exists m: nat :: t.InSub(n, m) && t.st[m] == M
  }

  /** The version of n's line after invalidations of the sharers smaller than c: a sharer that raised the writeback
      flag sent its own line's version along. */
  ghost function Merged(t: Tree, n: nat, c: nat): nat
    requires t.Shape() && n < |t.parent|
    decreases |t.parent| - n, c
  {
    if c == 0 then t.ver[n]
    else if c - 1 in t.dir[n].sharers && t.IsChild(n, c - 1) && Dirty(t, c - 1) then Fetched(t, c - 1)
    else Merged(t, n, c - 1)
  }

  /** The same after invalidations of all sharers. */
  ghost function Fetched(t: Tree, n: nat): nat
    requires t.Shape() && n < |t.parent|
    decreases |t.parent| - n, |t.parent| + 1
  {
    Merged(t, n, |t.parent|)
  }

  /** What an INV or INVX of node n leaves: the whole subtree invalid, or without exclusivity; dirty data has moved
      up. */
  ghost function Hit(t: Tree, n: nat, k: InvType): Tree
    requires t.Shape()
  {
    t.(st := seq(|t.parent|, m requires 0 <= m < |t.parent| => if t.InSub(n, m) then HitState(k, t.st[m]) else t.st[m]),
       dir := seq(|t.parent|, m requires 0 <= m < |t.parent| =>
                if t.InSub(n, m) then HitDir(k, t.dir[m]) else t.dir[m]),
       ver := seq<nat>(|t.parent|, m requires 0 <= m < |t.parent| => if t.InSub(n, m) then Fetched(t, m) else t.ver[m]))
  }

  /** m is below n, through a child that n's directory lists and that is smaller than c. */
  ghost predicate Reached(t: Tree, n: nat, c: nat, m: nat)
    requires t.Shape() && n < |t.parent|
  {
    t.InSub(n, m) && m != n && t.Via(n, m) < c && t.Via(n, m) in t.dir[n].sharers
  }

  /** The same below n only, so far for the children smaller than c; an INV clears their bits as it goes. */
  ghost function HitUpTo(t: Tree, n: nat, k: InvType, c: nat): Tree
    requires t.Shape() && n < |t.parent|
  {
    var e := t.dir[n];
    t.(st := seq(|t.parent|, m requires 0 <= m < |t.parent| =>
               if Reached(t, n, c, m) then HitState(k, t.st[m]) else t.st[m]),
       dir := seq(|t.parent|, m requires 0 <= m < |t.parent| =>
                if m == n then (if k == INV then e.(sharers := set d | d in e.sharers && d >= c) else e)
                else if Reached(t, n, c, m) then HitDir(k, t.dir[m]) else t.dir[m]),
       ver := seq<nat>(|t.parent|, m requires 0 <= m < |t.parent| =>
                if m == n then Merged(t, n, c) else if Reached(t, n, c, m) then Fetched(t, m) else t.ver[m]))
  }

  /** What sendInvalidates leaves below n and in n's directory. */
  ghost function HitBelow(t: Tree, n: nat, k: InvType): Tree
    requires t.Shape() && n < |t.parent|
  {
    if k == INVX && !t.dir[n].IsExclusive() then t
    else
      var u := HitUpTo(t, n, k, |t.parent|);
      u.(dir := u.dir[n := HitDir(k, t.dir[n])])
  }

  /** What sendInvalidates needs to find in n's directory and below. */
  ghost predicate BelowInv(t: Tree, n: nat)
    requires t.Shape() && n < |t.parent|
  {
    && t.DirShape(n)
    && forall d | d in t.dir[n].sharers ::
        d < |t.parent| && t.SubInv(d) && t.st[d] != I && (HasExclusive(t.st[d]) <==> t.dir[n].IsExclusive())
  }

  lemma BelowInvOfSub(t: Tree, n: nat)
    requires t.Shape() && n < |t.parent| && t.SubInv(n)
    ensures BelowInv(t, n)
  {
    assert t.InSub(n, n);
    forall d | d in t.dir[n].sharers
      ensures t.SubInv(d) && t.st[d] != I && (HasExclusive(t.st[d]) <==> t.dir[n].IsExclusive())
    {
      assert t.DirShape(n);
      SubOfChild(t, n, d, d);
      assert t.ChildOk(d);
      forall m: nat | t.InSub(d, m) ensures t.DirShape(m) && (m != d ==> t.ChildOk(m)) {
        SubOfChild(t, n, d, m);
      }
    }
  }

  /** Invalidating below n and then n itself is the same as invalidating the subtree: nothing else there is valid. */
  lemma HitBelowAndSelf(t: Tree, n: nat, k: InvType)
    requires t.Shape() && n < |t.parent| && t.SubInv(n) && (k == INVX ==> HasExclusive(t.st[n]))
    ensures var u := HitBelow(t, n, k); u.(st := u.st[n := HitState(k, t.st[n])]) == Hit(t, n, k)
  {
    var u := HitBelow(t, n, k);
    var v, w := u.(st := u.st[n := HitState(k, t.st[n])]), Hit(t, n, k);
    assert t.InSub(n, n);
    if k == INVX && !t.dir[n].IsExclusive() {
      CleanSharers(t, n, n);
    }
    forall m: nat | m < |t.parent| ensures v.st[m] == w.st[m] && v.dir[m] == w.dir[m] && v.ver[m] == w.ver[m] {
      if t.InSub(n, m) && m != n {
        NotReached(t, n, m);
      }
    }
    assert v.st == w.st && v.dir == w.dir && v.ver == w.ver;
  }

  /** What invalidations from n do not reach in its subtree is invalid, or not exclusive and then not hit at all; it
      has nothing dirty below. */
  lemma NotReached(t: Tree, n: nat, m: nat)
    requires t.Shape() && n < |t.parent| && t.SubInv(n) && t.InSub(n, m) && m != n
    ensures Reached(t, n, |t.parent|, m) || (t.st[m] == I && t.dir[m].sharers == {} && t.dir[m].numSharers == 0)
    ensures !t.dir[n].IsExclusive() ==> !HasExclusive(t.st[m]) && !t.dir[m].IsExclusive()
    ensures !Reached(t, n, |t.parent|, m) || !t.dir[n].IsExclusive() ==> Fetched(t, m) == t.ver[m]
  {
    ViaChild(t, n, m);
    var c := t.Via(n, m);
    SubOfChild(t, n, c, c);
    assert t.ChildOk(c);
    BelowInvOfChild(t, n, c);
    SubStates(t, c, m);
    if !Reached(t, n, |t.parent|, m) || !t.dir[n].IsExclusive() {
      CleanSharers(t, c, m);
    }
  }

  /** In a subtree whose root is not exclusive, or right below a directory that is not, nothing is dirty. */
  lemma CleanSharers(t: Tree, n: nat, m: nat)
    requires t.Shape() && n < |t.parent| && t.SubInv(n) && t.InSub(n, m)
    requires !HasExclusive(t.st[n]) || (n == m && !t.dir[n].IsExclusive())
    ensures Fetched(t, m) == t.ver[m]
  {
    forall d | d in t.dir[m].sharers && t.IsChild(m, d) ensures !Dirty(t, d) {
      SubOfChild(t, m, d, d);
      SubTrans(t, n, m, d);
      assert t.ChildOk(d) && t.DirShape(m);
      SubStates(t, n, m);
      SubInvDown(t, n, d);
      forall x: nat | t.InSub(d, x) ensures t.st[x] != M {
        SubStates(t, d, x);
      }
    }
    MergedClean(t, m, |t.parent|);
  }

  lemma SubInvDown(t: Tree, n: nat, m: nat)
    requires t.Shape() && t.SubInv(n) && t.InSub(n, m)
    ensures t.SubInv(m)
  {
    forall x: nat | t.InSub(m, x) ensures t.DirShape(x) && (x != m ==> t.ChildOk(x)) {
      SubTrans(t, n, m, x);
    }
  }

  lemma {:induction false} MergedClean(t: Tree, n: nat, c: nat)
    requires t.Shape() && n < |t.parent|
    requires forall d | d in t.dir[n].sharers && t.IsChild(n, d) :: !Dirty(t, d)
    ensures Merged(t, n, c) == t.ver[n]
    decreases c
  {
    if c > 0 {
      MergedClean(t, n, c - 1);
    }
  }

  lemma {:induction false} MergedSole(t: Tree, n: nat, d: nat, c: nat)
    requires t.Shape() && n < |t.parent| && t.dir[n].sharers == {d} && t.IsChild(n, d) && Dirty(t, d)
    ensures Merged(t, n, c) == if d < c then Fetched(t, d) else t.ver[n]
    decreases c
  {
    if c > 0 {
      MergedSole(t, n, d, c - 1);
    }
  }

  /** What a subtree sends up depends on that subtree only. */
  lemma {:induction false} MergedFrame(t: Tree, u: Tree, n: nat, c: nat)
    requires t.Shape() && u.Shape() && t.parent == u.parent && n < |t.parent|
    requires forall m: nat | t.InSub(n, m) :: t.st[m] == u.st[m] && t.dir[m] == u.dir[m] && t.ver[m] == u.ver[m]
    ensures Merged(t, n, c) == Merged(u, n, c)
    decreases |t.parent| - n, c
  {
    assert t.InSub(n, n);
    if c > 0 {
      MergedFrame(t, u, n, c - 1);
      var d := c - 1;
      if t.IsChild(n, d) {
        SameSubs(t, u);
        forall m: nat | t.InSub(d, m) ensures t.InSub(n, m) {
          SubOfChild(t, n, d, m);
        }
        MergedFrame(t, u, d, |t.parent|);
      }
    }
  }

  lemma BelowInvOfChild(t: Tree, n: nat, d: nat)
    requires t.Shape() && t.SubInv(n) && t.IsChild(n, d)
    ensures t.SubInv(d)
  {
    forall m: nat | t.InSub(d, m) ensures t.DirShape(m) && (m != d ==> t.ChildOk(m)) {
      SubOfChild(t, n, d, m);
    }
  }

  lemma HitNone(t: Tree, n: nat, k: InvType)
    requires t.Shape() && n < |t.parent|
    ensures HitUpTo(t, n, k, 0) == t
  {
    var u := HitUpTo(t, n, k, 0);
    assert (set d | d in t.dir[n].sharers && d >= 0) == t.dir[n].sharers;
    assert Merged(t, n, 0) == t.ver[n];
    assert forall m: nat | m < |t.parent| :: u.ver[m] == t.ver[m];
    assert u.st == t.st && u.dir == t.dir && u.ver == t.ver;
  }

  lemma HitSkip(t: Tree, n: nat, k: InvType, c: nat)
    requires t.Shape() && n < |t.parent| && c !in t.dir[n].sharers
    ensures HitUpTo(t, n, k, c + 1) == HitUpTo(t, n, k, c)
  {
    var u, v := HitUpTo(t, n, k, c + 1), HitUpTo(t, n, k, c);
    assert (set d | d in t.dir[n].sharers && d >= c + 1) == set d | d in t.dir[n].sharers && d >= c;
    assert forall m: nat :: Reached(t, n, c + 1, m) <==> Reached(t, n, c, m);
    assert Merged(t, n, c + 1) == Merged(t, n, c);
    assert u.st == v.st && u.dir == v.dir && u.ver == v.ver;
  }

  lemma HitNextSharer(t: Tree, n: nat, k: InvType, c: nat)
    requires t.Shape() && n < |t.parent|
    ensures var u := HitUpTo(t, n, k, c);
      u.Shape() && (c in u.dir[n].sharers <==> c in t.dir[n].sharers)
  {
  }

  /** The next child's subtree is still as it was. */
  lemma HitAhead(t: Tree, n: nat, k: InvType, c: nat)
    requires t.Shape() && n < |t.parent| && BelowInv(t, n) && c in t.dir[n].sharers
    ensures var u := HitUpTo(t, n, k, c);
      && u.Shape() && u.SubInv(c) && u.st[c] == t.st[c]
      && (forall m: nat | t.InSub(c, m) :: u.st[m] == t.st[m] && u.dir[m] == t.dir[m] && u.ver[m] == t.ver[m])
      && (Dirty(u, c) <==> Dirty(t, c))
      && forall m: nat | t.InSub(c, m) :: u.InSub(c, m) && Fetched(u, m) == Fetched(t, m)
  {
    var u := HitUpTo(t, n, k, c);
    SameSubs(t, u);
    forall m: nat | t.InSub(c, m) ensures u.st[m] == t.st[m] && u.dir[m] == t.dir[m] && u.ver[m] == t.ver[m] {
      SubOfChild(t, n, c, m);
    }
    assert t.InSub(c, c);
    SubFrame(t, u, c);
    forall m: nat | t.InSub(c, m) ensures Fetched(u, m) == Fetched(t, m) {
      forall x: nat | t.InSub(m, x) ensures t.InSub(c, x) {
        SubTrans(t, c, m, x);
      }
      MergedFrame(t, u, m, |t.parent|);
    }
  }

  /** The next child has been invalidated: n takes over its version if it was dirty, and clears its bit if it lost
      the line. */
  ghost function Merging(v: Tree, n: nat, k: InvType, c: nat, dirty: bool): Tree
    requires v.Shape() && n < |v.parent| && c < |v.parent|
  {
    var e := v.dir[n];
    v.(dir := v.dir[n := if k == INV then e.(sharers := e.sharers - {c}) else e],
       ver := if dirty then v.ver[n := v.ver[c]] else v.ver)
  }

  lemma HitNext(t: Tree, n: nat, k: InvType, c: nat)
    requires t.Shape() && n < |t.parent| && BelowInv(t, n) && c in t.dir[n].sharers
    ensures var u := HitUpTo(t, n, k, c);
      && u.Shape() && c < |t.parent|
      && Merging(Hit(u, c, k), n, k, c, Dirty(u, c)) == HitUpTo(t, n, k, c + 1)
  {
    var u := HitUpTo(t, n, k, c);
    HitAhead(t, n, k, c);
    SubOfChild(t, n, c, c);
    var v, w := Merging(Hit(u, c, k), n, k, c, Dirty(u, c)), HitUpTo(t, n, k, c + 1);
    forall m: nat | m < |t.parent| ensures v.st[m] == w.st[m] && v.dir[m] == w.dir[m] && v.ver[m] == w.ver[m] {
      if m == n {
        HitNextSelf(t, n, k, c);
      } else {
        HitNextAt(t, n, k, c, m);
      }
    }
    assert v.st == w.st && v.dir == w.dir && v.ver == w.ver;
  }

  lemma HitNextSelf(t: Tree, n: nat, k: InvType, c: nat)
    requires t.Shape() && n < |t.parent| && BelowInv(t, n) && c in t.dir[n].sharers
    ensures var u, w := HitUpTo(t, n, k, c), HitUpTo(t, n, k, c + 1);
      && u.Shape() && c < |t.parent|
      && var v := Merging(Hit(u, c, k), n, k, c, Dirty(u, c));
         v.st[n] == w.st[n] && v.dir[n] == w.dir[n] && v.ver[n] == w.ver[n]
  {
    SubOfChild(t, n, c, c);
    hide BelowInv;
    SameSubs(t, HitUpTo(t, n, k, c));
    HitAhead(t, n, k, c);
    assert !t.InSub(c, n) && t.InSub(c, c);
    assert (set d | d in t.dir[n].sharers && d >= c) - {c} == set d | d in t.dir[n].sharers && d >= c + 1;
    assert Merged(t, n, c + 1) == if Dirty(t, c) then Fetched(t, c) else Merged(t, n, c);
  }

  lemma HitNextAt(t: Tree, n: nat, k: InvType, c: nat, m: nat)
    requires t.Shape() && n < |t.parent| && BelowInv(t, n) && c in t.dir[n].sharers && m < |t.parent| && m != n
    ensures var u, w := HitUpTo(t, n, k, c), HitUpTo(t, n, k, c + 1);
      && u.Shape() && c < |t.parent|
      && var v := Merging(Hit(u, c, k), n, k, c, Dirty(u, c));
         v.st[m] == w.st[m] && v.dir[m] == w.dir[m] && v.ver[m] == w.ver[m]
  {
    SubOfChild(t, n, c, c);
    hide BelowInv;
    SameSubs(t, HitUpTo(t, n, k, c));
    HitAhead(t, n, k, c);
    ReachedThrough(t, n, c);
    assert Reached(t, n, c + 1, m) <==> Reached(t, n, c, m) || t.InSub(c, m);
    assert !(Reached(t, n, c, m) && t.InSub(c, m));
  }

  /** The sharers below c, one more if c is one: what the source counts as sent invalidations. */
  function SharersBelow(s: set<nat>, c: nat): set<nat> {
    set d | d in s && d < c
  }

  lemma SharersBelowNext(s: set<nat>, c: nat)
    ensures |SharersBelow(s, c + 1)| == |SharersBelow(s, c)| + if c in s then 1 else 0
  {
    assert SharersBelow(s, c + 1) == if c in s then SharersBelow(s, c) + {c} else SharersBelow(s, c);
  }

  // ---- the data: who has the last write

  /** A valid copy that misses the last write has an exclusive child that is dirty or misses it too. */
  ghost predicate CopyOk(t: Tree, m: nat)
    requires t.Shape() && m < |t.parent|
  {
    && t.ver[m] <= t.last
    && (t.st[m] != I && t.ver[m] != t.last ==>
          && t.dir[m].IsExclusive()
          && exists c :: c in t.dir[m].sharers && c < |t.parent| && (t.st[c] == M || t.ver[c] != t.last))
  }

  ghost predicate CopiesOk(t: Tree, n: nat)
    requires t.Shape()
  {
    forall m: nat | t.InSub(n, m) :: CopyOk(t, m)
  }

  ghost predicate DirtyReached(t: Tree, n: nat, c: nat)
    requires t.Shape() && n < |t.parent|
  {
    exists m: nat :: Reached(t, n, c, m) && t.st[m] == M
  }

  /** The memory and all valid copies: the last write is in memory, or the cache next to memory leads to it. */
  ghost predicate DataOk(t: Tree)
    requires t.Shape()
  {
    && (forall m: nat | m < |t.parent| :: CopyOk(t, m))
    && t.mem <= t.last
    && (t.mem != t.last ==> HasExclusive(t.st[0]) && (t.st[0] == M || t.ver[0] != t.last))
  }

  /** A stale copy has a modified one strictly below it. */
  lemma {:induction false} StaleMeansDirtyBelow(t: Tree, n: nat)
    requires t.Shape() && n < |t.parent| && t.SubInv(n) && CopiesOk(t, n) && t.st[n] != I && t.ver[n] != t.last
    ensures exists m: nat :: t.InSub(n, m) && m != n && t.st[m] == M && t.Via(n, m) in t.dir[n].sharers
    decreases |t.parent| - n
  {
    assert t.InSub(n, n) && CopyOk(t, n) && t.DirShape(n);
    var c :| c in t.dir[n].sharers && c < |t.parent| && (t.st[c] == M || t.ver[c] != t.last);
    SubOfChild(t, n, c, c);
    assert t.ChildOk(c);
    if t.st[c] != M {
      CopiesBelow(t, n);
      StaleMeansDirtyBelow(t, c);
      var m: nat :| t.InSub(c, m) && m != c && t.st[m] == M;
      SubOfChild(t, n, c, m);
    }
  }

  lemma CopiesBelow(t: Tree, n: nat)
    requires t.Shape() && n < |t.parent| && t.SubInv(n) && CopiesOk(t, n)
    ensures forall c | c in t.dir[n].sharers :: c < |t.parent| && t.SubInv(c) && CopiesOk(t, c)
  {
    assert t.InSub(n, n) && t.DirShape(n);
    forall c | c in t.dir[n].sharers ensures t.SubInv(c) && CopiesOk(t, c) {
      BelowInvOfChild(t, n, c);
      forall m: nat | t.InSub(c, m) ensures CopyOk(t, m) {
        SubOfChild(t, n, c, m);
      }
    }
  }

  /** No write is ever lost: if memory misses the last write, some cache is modified; and what a cache without children
      may read is the last write. */
  lemma LastWriteIsSomewhere(t: Tree)
    requires t.Inv() && DataOk(t)
    ensures t.mem != t.last ==> Dirty(t, 0)
    ensures forall n: nat | n < |t.parent| && t.st[n] != I && t.dir[n].sharers == {} :: t.ver[n] == t.last
    ensures forall n: nat | n < |t.parent| && t.st[n] != I && t.ver[n] != t.last ::
      exists m: nat :: t.InSub(n, m) && m != n && t.st[m] == M
  {
    forall n: nat | n < |t.parent| && t.st[n] != I && t.ver[n] != t.last
      ensures exists m: nat :: t.InSub(n, m) && m != n && t.st[m] == M
    {
      StaleMeansDirtyBelow(t, n);
    }
    forall n: nat | n < |t.parent| && t.st[n] != I && t.dir[n].sharers == {} ensures t.ver[n] == t.last {
      assert CopyOk(t, n);
    }
    assert t.InSub(0, 0);
  }

  lemma DirtyReachedNext(t: Tree, n: nat, c: nat)
    requires t.Shape() && n < |t.parent| && BelowInv(t, n)
    ensures DirtyReached(t, n, c + 1) <==> DirtyReached(t, n, c) || (c in t.dir[n].sharers && Dirty(t, c))
    ensures !DirtyReached(t, n, 0)
  {
    if c in t.dir[n].sharers {
      ReachedThrough(t, n, c);
    }
    assert forall m: nat | Reached(t, n, c, m) :: Reached(t, n, c + 1, m);
    assert forall m: nat | Reached(t, n, c + 1, m) && t.Via(n, m) != c :: Reached(t, n, c, m);
  }

  lemma ReachedThrough(t: Tree, n: nat, c: nat)
    requires t.Shape() && n < |t.parent| && BelowInv(t, n) && c in t.dir[n].sharers
    ensures forall m: nat :: t.InSub(c, m) <==> Reached(t, n, c + 1, m) && t.Via(n, m) == c
  {
    forall m: nat ensures t.InSub(c, m) <==> Reached(t, n, c + 1, m) && t.Via(n, m) == c {
      if t.InSub(c, m) {
        SubOfChild(t, n, c, m);
      }
      if Reached(t, n, c + 1, m) {
        ViaChild(t, n, m);
      }
    }
  }

  /** The writeback flag of a subtree is that of the invalidations below its root, or the root's own. */
  lemma DirtyIsReached(t: Tree, n: nat)
    requires t.Shape() && n < |t.parent| && t.SubInv(n)
    ensures Dirty(t, n) <==> DirtyReached(t, n, |t.parent|) || t.st[n] == M
    ensures DirtyReached(t, n, |t.parent|) ==> t.dir[n].IsExclusive()
  {
    assert t.InSub(n, n);
    forall m: nat | t.InSub(n, m) && m != n && t.st[m] == M ensures DirtyReached(t, n, |t.parent|) {
      NotReached(t, n, m);
    }
    if DirtyReached(t, n, |t.parent|) {
      var m: nat :| Reached(t, n, |t.parent|, m) && t.st[m] == M;
      NotReached(t, n, m);
    }
  }

  // ---- data under invalidations

  /** Invalidations below n bring the last write to n, if it is valid or they find dirty data. */
  lemma {:induction false} MergedIsLast(t: Tree, n: nat)
    requires t.Shape() && n < |t.parent| && BelowInv(t, n) && forall d | d in t.dir[n].sharers :: CopiesOk(t, d)
    ensures DirtyReached(t, n, |t.parent|) ==> Fetched(t, n) == t.last
    ensures !DirtyReached(t, n, |t.parent|) ==> Fetched(t, n) == t.ver[n]
    decreases |t.parent| - n, 0
  {
    if DirtyReached(t, n, |t.parent|) {
      var m: nat :| Reached(t, n, |t.parent|, m) && t.st[m] == M;
      ViaChild(t, n, m);
      var d := t.Via(n, m);
      SubStates(t, d, m);
      Singleton(t.dir[n].sharers, d);
      MergedSole(t, n, d, |t.parent|);
      FetchedIsLast(t, d);
    } else {
      forall d | d in t.dir[n].sharers && t.IsChild(n, d) ensures !Dirty(t, d) {
        ReachedThrough(t, n, d);
        assert forall m: nat | Reached(t, n, d + 1, m) :: Reached(t, n, |t.parent|, m);
      }
      MergedClean(t, n, |t.parent|);
    }
  }

  /** A valid copy holds the last write once its children's copies are hit. */
  lemma {:induction false} FetchedIsLast(t: Tree, n: nat)
    requires t.Shape() && n < |t.parent| && t.SubInv(n) && CopiesOk(t, n) && t.st[n] != I
    ensures Fetched(t, n) == t.last
    decreases |t.parent| - n, 1
  {
    BelowInvOfSub(t, n);
    CopiesBelow(t, n);
    MergedIsLast(t, n);
    if t.ver[n] != t.last {
      StaleMeansDirtyBelow(t, n);
      var m: nat :| t.InSub(n, m) && m != n && t.st[m] == M && t.Via(n, m) in t.dir[n].sharers;
      ViaChild(t, n, m);
      assert Reached(t, n, |t.parent|, m);
    }
  }

  lemma {:induction false} MergedBound(t: Tree, n: nat, c: nat)
    requires t.Shape() && n < |t.parent| && forall m: nat | m < |t.parent| :: t.ver[m] <= t.last
    ensures Merged(t, n, c) <= t.last
    decreases |t.parent| - n, c
  {
    if c > 0 {
      MergedBound(t, n, c - 1);
      if t.IsChild(n, c - 1) {
        MergedBound(t, c - 1, |t.parent|);
      }
    }
  }

  lemma AllSharers(t: Tree, n: nat)
    requires t.Shape() && n < |t.parent| && t.DirShape(n)
    ensures SharersBelow(t.dir[n].sharers, |t.parent|) == t.dir[n].sharers
    ensures (set d | d in t.dir[n].sharers && d >= |t.parent|) == {}
  {
  }

  lemma NothingBelow(t: Tree, n: nat, k: InvType)
    requires t.Shape() && n < |t.parent| && t.DirShape(n) && t.dir[n].IsEmpty()
    ensures HitBelow(t, n, k) == t && !DirtyReached(t, n, |t.parent|)
  {
    assert t.dir[n].sharers == {};
    MergedClean(t, n, |t.parent|);
    var u := HitBelow(t, n, k);
    assert u.st == t.st && u.dir == t.dir && u.ver == t.ver;
  }

  /** All invalidations are sent: what is left to do in n's directory. */
  lemma HitEnds(t: Tree, n: nat, k: InvType)
    requires t.Shape() && n < |t.parent| && t.DirShape(n) && (k == INV || t.dir[n].IsExclusive())
    ensures var u := HitUpTo(t, n, k, |t.parent|);
      && u.Shape() && u.dir[n].numSharers == t.dir[n].numSharers && u.dir[n].exclusive == t.dir[n].exclusive
      && var e := u.dir[n];
         u.(dir := u.dir[n := if k == INV then e.(numSharers := 0) else e.(exclusive := false)]) == HitBelow(t, n, k)
  {
    AllSharers(t, n);
    var u := HitUpTo(t, n, k, |t.parent|);
    var e, v := u.dir[n], HitBelow(t, n, k);
    assert u.dir[n := if k == INV then e.(numSharers := 0) else e.(exclusive := false)] == v.dir;
  }
}
