/** The steps of the MESI protocol of src/coherence_ctrls.{h,cpp} on one line, and what they keep. */
module MesiSteps {
  import opened Coherence
  import opened MesiTree
  import opened Options
  import opened Sets

  /** c's request is answered. */
  ghost function Cleared(t: Tree, c: nat): Tree
    requires t.Shape() && c < |t.parent|
  {
    t.(pend := t.pend[c := None], serving := t.serving[c := None])
  }

  /** A PUT takes the child out of the directory, and a PUTX brings its version. */
  ghost function PutDone(t: Tree, p: nat, c: nat, kind: AccessType): Tree
    requires t.Shape() && p < |t.parent| && c < |t.parent| && t.dir[p].numSharers > 0
  {
    t.(st := t.st[c := I],
       dir := t.dir[p := t.dir[p].(numSharers := t.dir[p].numSharers - 1, sharers := t.dir[p].sharers - {c})],
       ver := if kind == PUTX then t.ver[p := t.ver[c]] else t.ver)
  }

  /** A cache that may write silently becomes modified. */
  ghost function Modified(t: Tree, p: nat): Tree
    requires t.Shape() && p < |t.parent|
  {
    t.(st := t.st[p := M])
  }

  /** Whether invalidations below p come back with the writeback flag raised. */
  ghost predicate Raises(t: Tree, p: nat, k: InvType)
    requires t.Shape() && p < |t.parent|
  {
    (k == INV || t.dir[p].IsExclusive()) && DirtyReached(t, p, |t.parent|)
  }

  /** After the invalidations below p, p merges what they bring. */
  ghost function Collected(t: Tree, p: nat, k: InvType): Tree
    requires t.Shape() && p < |t.parent|
  {
    if Raises(t, p, k) then Modified(HitBelow(t, p, k), p) else HitBelow(t, p, k)
  }

  /** c enters p's directory with state x and gets p's version. */
  ghost function Entered(t: Tree, p: nat, c: nat, x: MESIState): Tree
    requires t.Shape() && p < |t.parent| && c < |t.parent|
  {
    var e := t.dir[p];
    t.(st := t.st[c := x],
       dir := t.dir[p := Entry(e.numSharers + 1, e.sharers + {c}, e.owners + {c}, HasExclusive(x))],
       ver := t.ver[c := t.ver[p]])
  }

  /** A GETS gives E if nobody shares the line and p may hand out exclusivity, and S otherwise. */
  ghost function GetsDone(t: Tree, p: nat, c: nat, noExcl: bool): Tree
    requires t.Shape() && p < |t.parent| && c < |t.parent|
  {
    if t.dir[p].IsEmpty() && HasExclusive(t.st[p]) && !noExcl then Entered(t, p, c, E)
    else Entered(Collected(t, p, INVX), p, c, S)
  }

  /** c taken out of p's directory if it is there: the first half of an upgrade. */
  ghost function TakenOut(t: Tree, p: nat, c: nat): Tree
    requires t.Shape() && p < |t.parent|
  {
    var e := t.dir[p];
    if c in e.sharers && e.numSharers > 0 then
      t.(dir := t.dir[p := e.(numSharers := e.numSharers - 1, sharers := e.sharers - {c})])
    else t
  }

  /** A GETX invalidates all other copies below p and gives M. */
  ghost function GetxDone(t: Tree, p: nat, c: nat): Tree
    requires t.Shape() && p < |t.parent| && c < |t.parent|
  {
    Entered(HitBelow(TakenOut(t, p, c), p, INV), p, c, M)
  }

  /** The request of c can be answered from p's own line. */
  ghost predicate Answerable(t: Tree, c: nat, kind: AccessType)
    requires t.Shape()
  {
    && 0 < c < |t.parent| && t.pend[c].Some? && t.pend[t.parent[c]] == None
    && CheckForMESIRace(t.pend[c].value.kind, t.st[c], t.pend[c].value.initial) == Go(kind)
    && match kind
       case GETS => t.st[t.parent[c]] != I
       case GETX => HasExclusive(t.st[t.parent[c]])
       case PUTS => true
       case PUTX => true
  }

  lemma PutKeepsInv(t: Tree, c: nat, kind: AccessType)
    requires t.Inv() && Answerable(t, c, kind) && (kind == PUTS || kind == PUTX)
    ensures t.dir[t.parent[c]].numSharers > 0
    ensures Cleared(PutDone(t, t.parent[c], c, kind), c).Inv()
  {
    RaceCheckRepairs(t, c);
    var p := t.parent[c];
    assert t.PendOk(c) && t.ChildOk(c) && t.DirShape(p);
    var u := Cleared(PutDone(t, p, c, kind), c);
    forall x: nat | 0 < x < |t.parent| ensures u.ChildOk(x) {
      assert t.ChildOk(x) && t.DirShape(c);
      if t.parent[x] == p && x != c && t.dir[p].numSharers == 1 {
        Singleton(t.dir[p].sharers, c);
      }
      if t.parent[x] == p && x != c && x in t.dir[p].sharers {
        SubsetSize({c, x}, t.dir[p].sharers);
      }
      hide Tree.PendOk, Tree.Inv;
    }
    forall n: nat | n < |t.parent| ensures u.DirShape(n) && u.PendOk(n) {
      assert t.DirShape(n) && t.PendOk(n);
      hide Tree.ChildOk, Tree.Inv;
    }
  }

  /** A node is reached from p when it is a listed child of p or its parent is reached. */
  lemma ReachedStep(t: Tree, p: nat, x: nat)
    requires t.Shape() && p < |t.parent| && 0 < x < |t.parent|
    ensures Reached(t, p, |t.parent|, x) <==>
      (t.parent[x] == p && x in t.dir[p].sharers) || Reached(t, p, |t.parent|, t.parent[x])
    ensures !Reached(t, p, |t.parent|, p)
  {
    var y := t.parent[x];
    assert t.InSub(p, x) <==> x == p || (p < x && t.InSub(p, y));
    if t.InSub(p, y) && y != p {
      ViaChild(t, p, y);
    }
  }

  /** The invariant, except for what the parent's directory says about child c. */
  ghost predicate InvExcept(t: Tree, c: nat) {
    && t.Shape()
    && (forall n: nat | n < |t.parent| :: t.DirShape(n))
    && (forall x: nat | 0 < x < |t.parent| && x != c :: t.ChildOk(x))
    && (forall x: nat | x < |t.parent| :: t.PendOk(x))
  }

  lemma HitKeepsChild(t: Tree, p: nat, k: InvType, c: nat, x: nat)
    requires InvExcept(t, c) && p < |t.parent| && (c == 0 || (t.IsChild(p, c) && c !in t.dir[p].sharers))
    requires 0 < x < |t.parent| && x != c
    ensures HitBelow(t, p, k).Shape() && HitBelow(t, p, k).ChildOk(x)
  {
    assert t.ChildOk(x) && t.DirShape(p);
    ReachedStep(t, p, x);
    if k == INVX && t.dir[p].IsExclusive() && x in t.dir[p].sharers {
      Singleton(t.dir[p].sharers, x);
    }
  }

  /** Invalidations sent below p keep the invariant, wherever requests are pending there. */
  lemma HitKeepsInv(t: Tree, p: nat, k: InvType, c: nat)
    requires InvExcept(t, c) && p < |t.parent| && (c == 0 || (t.IsChild(p, c) && c !in t.dir[p].sharers))
    ensures InvExcept(HitBelow(t, p, k), c)
    ensures if k == INV then HitBelow(t, p, k).dir[p].sharers == {} else !HitBelow(t, p, k).dir[p].IsExclusive()
  {
    var u := HitBelow(t, p, k);
    forall x: nat | 0 < x < |t.parent| && x != c ensures u.ChildOk(x) {
      HitKeepsChild(t, p, k, c, x);
    }
    forall n: nat | n < |t.parent| ensures u.DirShape(n) {
      assert t.DirShape(n);
    }
    forall x: nat | x < |t.parent| ensures u.PendOk(x) {
      assert t.PendOk(x);
    }
  }

  lemma ModifiedKeepsInv(t: Tree, p: nat)
    requires t.Inv() && p < |t.parent| && HasExclusive(t.st[p]) && t.pend[p] == None
    ensures Modified(t, p).Inv()
  {
    var u := Modified(t, p);
    forall x: nat | 0 < x < |t.parent| ensures u.ChildOk(x) {
      assert t.ChildOk(x);
    }
    forall n: nat | n < |t.parent| ensures u.DirShape(n) && u.PendOk(n) {
      assert t.DirShape(n) && t.PendOk(n);
    }
  }

  lemma EnteredKeepsInv(t: Tree, p: nat, c: nat, x: MESIState)
    requires InvExcept(t, c) && t.IsChild(p, c) && t.st[p] != I && c !in t.dir[p].sharers && t.pend[p] == None
    requires x == S || (HasExclusive(x) && HasExclusive(t.st[p]) && t.dir[p].sharers == {})
    requires x == S ==> !t.dir[p].IsExclusive()
    requires HasExclusive(t.st[c]) ==> HasExclusive(x)
    ensures Cleared(Entered(t, p, c, x), c).Inv()
  {
    var u := Cleared(Entered(t, p, c, x), c);
    forall y: nat | 0 < y < |t.parent| ensures u.ChildOk(y) {
      EnteredChild(t, p, c, x, y);
    }
    forall n: nat | n < |t.parent| ensures u.DirShape(n) && u.PendOk(n) {
      EnteredNode(t, p, c, x, n);
    }
  }

  lemma EnteredChild(t: Tree, p: nat, c: nat, x: MESIState, y: nat)
    requires t.Shape() && t.IsChild(p, c) && t.DirShape(p) && t.st[p] != I && c !in t.dir[p].sharers
    requires x == S || (HasExclusive(x) && HasExclusive(t.st[p]) && t.dir[p].sharers == {})
    requires (x == S ==> !t.dir[p].IsExclusive()) && (HasExclusive(t.st[c]) ==> HasExclusive(x))
    requires 0 < y < |t.parent| && (y != c ==> t.ChildOk(y))
    ensures Cleared(Entered(t, p, c, x), c).Shape() && Cleared(Entered(t, p, c, x), c).ChildOk(y)
  {
  }

  lemma EnteredNode(t: Tree, p: nat, c: nat, x: MESIState, n: nat)
    requires t.Shape() && t.IsChild(p, c) && t.DirShape(p) && c !in t.dir[p].sharers && t.pend[p] == None
    requires x == S || (HasExclusive(x) && t.dir[p].sharers == {})
    requires n < |t.parent| && t.DirShape(n) && t.PendOk(n)
    ensures var u := Cleared(Entered(t, p, c, x), c); u.Shape() && u.DirShape(n) && u.PendOk(n)
  {
  }

  lemma DowngradedKeepsInv(t: Tree, p: nat)
    requires t.Inv() && p < |t.parent| && t.pend[p] == None
    ensures Collected(t, p, INVX).Inv() && !Collected(t, p, INVX).dir[p].IsExclusive()
  {
    HitKeepsInv(t, p, INVX, 0);
    if t.dir[p].IsExclusive() && DirtyReached(t, p, |t.parent|) {
      ExclusiveParent(t, p);
      ModifiedKeepsInv(HitBelow(t, p, INVX), p);
    }
  }

  lemma GetsKeepsInv(t: Tree, c: nat, noExcl: bool)
    requires t.Inv() && Answerable(t, c, GETS)
    ensures Cleared(GetsDone(t, t.parent[c], c, noExcl), c).Inv()
  {
    RaceCheckRepairs(t, c);
    var p := t.parent[c];
    assert t.ChildOk(c) && t.DirShape(p);
    if t.dir[p].IsEmpty() && HasExclusive(t.st[p]) && !noExcl {
      EnteredKeepsInv(t, p, c, E);
    } else {
      DowngradedKeepsInv(t, p);
      ReachedStep(t, p, c);
      EnteredKeepsInv(Collected(t, p, INVX), p, c, S);
    }
  }

  /** Only a cache with exclusivity has an exclusive sharer. */
  lemma ExclusiveParent(t: Tree, p: nat)
    requires t.Inv() && p < |t.parent| && t.dir[p].IsExclusive()
    ensures HasExclusive(t.st[p])
  {
    assert t.DirShape(p);
    var d :| d in t.dir[p].sharers;
    assert t.ChildOk(d);
  }

  lemma GetxKeepsInv(t: Tree, c: nat)
    requires t.Inv() && Answerable(t, c, GETX)
    ensures Cleared(GetxDone(t, t.parent[c], c), c).Inv()
  {
    RaceCheckRepairs(t, c);
    var p := t.parent[c];
    assert t.ChildOk(c) && t.DirShape(p);
    var m := TakenOut(t, p, c);
    TakenOutExcept(t, c);
    HitKeepsInv(m, p, INV, c);
    var u := HitBelow(m, p, INV);
    EnteredKeepsInv(u, p, c, M);
    assert u.DirShape(p);
  }

  lemma TakenOutExcept(t: Tree, c: nat)
    requires t.Inv() && 0 < c < |t.parent| && !HasExclusive(t.st[c])
    ensures var m := TakenOut(t, t.parent[c], c); InvExcept(m, c) && c !in m.dir[t.parent[c]].sharers
  {
    var p := t.parent[c];
    var m := TakenOut(t, p, c);
    assert t.ChildOk(c) && t.DirShape(p);
    forall x: nat | 0 < x < |t.parent| && x != c ensures m.ChildOk(x) {
      assert t.ChildOk(x);
      if t.parent[x] == p && c in t.dir[p].sharers && x in t.dir[p].sharers {
        SubsetSize({c, x}, t.dir[p].sharers);
      }
    }
    forall n: nat | n < |t.parent| ensures m.DirShape(n) && m.PendOk(n) {
      assert t.DirShape(n) && t.PendOk(n);
    }
  }

  // ---- data

  lemma SelfUntouched(t: Tree, n: nat, k: InvType)
    requires t.Shape() && n < |t.parent|
    ensures HitBelow(t, n, k).st[n] == t.st[n]
  {
  }

  /** A cache whose children's subtrees are in order, though p's directory may say nothing of c. */
  lemma BelowInvExcept(t: Tree, p: nat, c: nat)
    requires InvExcept(t, c) && p < |t.parent| && (c == 0 || (t.IsChild(p, c) && c !in t.dir[p].sharers))
    ensures BelowInv(t, p)
    ensures forall m: nat | t.InSub(p, m) && m != p :: t.SubInv(m)
    ensures DataOk(t) ==> forall m: nat | t.InSub(p, m) :: CopiesOk(t, m)
  {
    forall m: nat | t.InSub(p, m) && m != p ensures t.SubInv(m) {
      forall x: nat | t.InSub(m, x) ensures t.DirShape(x) && (x != m ==> t.ChildOk(x)) {
        assert x != m ==> t.InSub(m, t.parent[x]);
      }
    }
    assert t.DirShape(p);
    forall d | d in t.dir[p].sharers
      ensures d < |t.parent| && t.SubInv(d) && t.st[d] != I && (HasExclusive(t.st[d]) <==> t.dir[p].IsExclusive())
    {
      SubOfChild(t, p, d, d);
      assert t.ChildOk(d);
    }
  }

  /** Invalidations bring up the last write: copies that stay valid below p hold it, and so does p if they raise the
      flag. */
  lemma HitData(t: Tree, p: nat, k: InvType, c: nat)
    requires InvExcept(t, c) && p < |t.parent| && (c == 0 || (t.IsChild(p, c) && c !in t.dir[p].sharers)) && DataOk(t)
    ensures HitBelow(t, p, k).ver[p] == if Raises(t, p, k) then t.last else t.ver[p]
    ensures (k == INV || t.dir[p].IsExclusive()) ==>
      forall m: nat | Reached(t, p, |t.parent|, m) && t.st[m] != I :: HitBelow(t, p, k).ver[m] == t.last
  {
    BelowInvExcept(t, p, c);
    forall d | d in t.dir[p].sharers ensures CopiesOk(t, d) {
      assert t.DirShape(p);
      SubOfChild(t, p, d, d);
    }
    MergedIsLast(t, p);
    forall m: nat | Reached(t, p, |t.parent|, m) && t.st[m] != I ensures Fetched(t, m) == t.last {
      FetchedIsLast(t, m);
    }
  }

  /** After invalidations below p, with p modified if they raised the flag, no write is lost, and p holds the last. */
  lemma HitKeepsData(t: Tree, p: nat, k: InvType, c: nat)
    requires InvExcept(t, c) && p < |t.parent| && (c == 0 || (t.IsChild(p, c) && c !in t.dir[p].sharers)) && DataOk(t)
    requires t.st[p] != I && t.ver[p] != t.last ==> Raises(t, p, k)
    requires Raises(t, p, k) ==> HasExclusive(t.st[p])
    ensures var v := Collected(t, p, k); DataOk(v) && (t.st[p] != I ==> v.ver[p] == t.last)
  {
    HitData(t, p, k, c);
    SelfUntouched(t, p, k);
    HitBound(t, p, k);
    var v := Collected(t, p, k);
    forall x: nat | x < |t.parent| ensures CopyOk(v, x) {
      if x != p && !Reached(t, p, |t.parent|, x) {
        HitElsewhere(t, p, k, c, x);
      }
    }
  }

  lemma HitBound(t: Tree, p: nat, k: InvType)
    requires t.Shape() && p < |t.parent| && forall x: nat | x < |t.parent| :: CopyOk(t, x)
    ensures forall x: nat | x < |t.parent| :: HitBelow(t, p, k).ver[x] <= t.last
  {
    assert forall x: nat | x < |t.parent| :: CopyOk(t, x) && t.ver[x] <= t.last;
    forall x: nat | x < |t.parent| ensures HitBelow(t, p, k).ver[x] <= t.last {
      MergedBound(t, x, |t.parent|);
    }
  }

  lemma HitSame(t: Tree, p: nat, k: InvType, x: nat)
    requires t.Shape() && p < |t.parent| && x < |t.parent| && x != p && !Reached(t, p, |t.parent|, x)
    ensures var u := HitBelow(t, p, k);
      u.Shape() && u.st[x] == t.st[x] && u.dir[x] == t.dir[x] && u.ver[x] == t.ver[x] && u.last == t.last
  {
  }

  /** A stale copy that the invalidations do not reach has a child that leads on, not reached either. */
  lemma StaleChild(t: Tree, p: nat, c: nat, x: nat) returns (y: nat)
    requires InvExcept(t, c) && p < |t.parent| && (c == 0 || (t.IsChild(p, c) && c !in t.dir[p].sharers))
    requires x < |t.parent| && x != p && !Reached(t, p, |t.parent|, x)
    requires CopyOk(t, x) && t.st[x] != I && t.ver[x] != t.last
    ensures y < |t.parent| && y in t.dir[x].sharers && t.dir[x].IsExclusive() && (t.st[y] == M || t.ver[y] != t.last)
    ensures !Reached(t, p, |t.parent|, y) && (y == p ==> t.st[p] != I)
  {
    assert t.DirShape(x);
    y :| y in t.dir[x].sharers && y < |t.parent| && (t.st[y] == M || t.ver[y] != t.last);
    ReachedStep(t, p, y);
    if y == p {
      assert t.ChildOk(p);
    }
  }

  lemma HitSelf(t: Tree, p: nat, k: InvType, c: nat)
    requires InvExcept(t, c) && p < |t.parent| && (c == 0 || (t.IsChild(p, c) && c !in t.dir[p].sharers)) && DataOk(t)
    ensures var v := Collected(t, p, k);
      && v.Shape() && v.last == t.last && v.st[p] == (if Raises(t, p, k) then M else t.st[p])
      && v.ver[p] == (if Raises(t, p, k) then t.last else t.ver[p])
  {
    HitData(t, p, k, c);
    SelfUntouched(t, p, k);
  }

  /** A copy that the invalidations do not reach leads to the last write as before, perhaps only as far as p. */
  lemma HitElsewhere(t: Tree, p: nat, k: InvType, c: nat, x: nat)
    requires InvExcept(t, c) && p < |t.parent| && (c == 0 || (t.IsChild(p, c) && c !in t.dir[p].sharers)) && DataOk(t)
    requires t.st[p] != I && t.ver[p] != t.last ==> Raises(t, p, k)
    requires x < |t.parent| && x != p && !Reached(t, p, |t.parent|, x)
    ensures Collected(t, p, k).Shape() && CopyOk(Collected(t, p, k), x)
  {
    assert CopyOk(t, x);
    HitSelf(t, p, k, c);
    HitSame(t, p, k, x);
    if t.st[x] != I && t.ver[x] != t.last {
      var y := StaleChild(t, p, c, x);
      if y != p {
        HitSame(t, p, k, y);
      }
      hide HitBelow, Reached, Raises, InvExcept, DataOk;
      var v := Collected(t, p, k);
      assert y in v.dir[x].sharers && (v.st[y] == M || v.ver[y] != t.last);
    }
  }

  /** If p is stale, invalidations below it raise the flag. */
  lemma StaleRaises(t: Tree, p: nat)
    requires t.Inv() && p < |t.parent| && DataOk(t)
    ensures t.st[p] != I && t.ver[p] != t.last ==> t.dir[p].IsExclusive() && DirtyReached(t, p, |t.parent|)
  {
    if t.st[p] != I && t.ver[p] != t.last {
      assert CopyOk(t, p);
      StaleMeansDirtyBelow(t, p);
      var m: nat :| t.InSub(p, m) && m != p && t.st[m] == M && t.Via(p, m) in t.dir[p].sharers;
      ViaChild(t, p, m);
      assert Reached(t, p, |t.parent|, m);
    }
  }

  lemma ModifiedKeepsData(t: Tree, p: nat)
    requires t.Shape() && p < |t.parent| && DataOk(t) && t.st[p] != I
    ensures DataOk(Modified(t, p))
  {
    var u := Modified(t, p);
    forall x: nat | x < |t.parent| ensures CopyOk(u, x) {
      assert CopyOk(t, x);
    }
  }

  lemma DowngradedKeepsData(t: Tree, p: nat)
    requires t.Inv() && p < |t.parent| && t.st[p] != I && DataOk(t)
    ensures DataOk(Collected(t, p, INVX)) && Collected(t, p, INVX).ver[p] == t.last
  {
    StaleRaises(t, p);
    if t.dir[p].IsExclusive() {
      ExclusiveParent(t, p);
    }
    HitKeepsData(t, p, INVX, 0);
  }

  /** A child without exclusivity leads to no write, so its parent's directory may forget it. */
  lemma TakenOutData(t: Tree, c: nat)
    requires t.Inv() && 0 < c < |t.parent| && !HasExclusive(t.st[c]) && DataOk(t)
    ensures var p, m := t.parent[c], TakenOut(t, t.parent[c], c);
      InvExcept(m, c) && DataOk(m) && (t.st[p] != I && t.ver[p] != t.last ==> DirtyReached(m, p, |t.parent|))
  {
    var p := t.parent[c];
    var m := TakenOut(t, p, c);
    assert t.ChildOk(c) && t.DirShape(p);
    TakenOutExcept(t, c);
    StaleRaises(t, p);
    if t.dir[p].IsExclusive() {
      assert c !in t.dir[p].sharers;
      assert m == t;
    }
    forall x: nat | x < |t.parent| ensures CopyOk(m, x) {
      assert CopyOk(t, x);
    }
  }

  /** What the first half of a GETX leaves to the second: no other copy below p, and p modified still. */
  lemma OthersInv(t: Tree, c: nat)
    requires t.Inv() && 0 < c < |t.parent| && !HasExclusive(t.st[c]) && t.st[t.parent[c]] == M
    ensures var p, m := t.parent[c], TakenOut(t, t.parent[c], c);
      && (c in t.dir[p].sharers ==> !t.dir[p].IsExclusive() && t.dir[p].numSharers > 0)
      && BelowInv(m, p) && InvExcept(m, c) && c !in m.dir[p].sharers
      && InvExcept(HitBelow(m, p, INV), c) && HitBelow(m, p, INV).dir[p].numSharers == 0
      && HitBelow(m, p, INV).st[p] == M
  {
    var p := t.parent[c];
    var m := TakenOut(t, p, c);
    assert t.ChildOk(c) && t.DirShape(p);
    TakenOutExcept(t, c);
    BelowInvExcept(m, p, c);
    HitKeepsInv(m, p, INV, c);
    SelfUntouched(m, p, INV);
    assert HitBelow(m, p, INV).DirShape(p);
  }

  lemma OthersData(t: Tree, c: nat)
    requires t.Inv() && 0 < c < |t.parent| && !HasExclusive(t.st[c]) && DataOk(t) && t.st[t.parent[c]] == M
    ensures var p := t.parent[c];
      var u := HitBelow(TakenOut(t, p, c), p, INV); DataOk(u) && u.ver[p] == t.last
  {
    var p := t.parent[c];
    var m := TakenOut(t, p, c);
    TakenOutExcept(t, c);
    TakenOutData(t, c);
    HitKeepsData(m, p, INV, c);
    SelfUntouched(m, p, INV);
    assert Modified(HitBelow(m, p, INV), p) == HitBelow(m, p, INV);
  }

  /** A child that enters the directory of p gets p's version, which is the last write. */
  lemma EnteredKeepsData(t: Tree, p: nat, c: nat, x: MESIState)
    requires t.Shape() && t.IsChild(p, c) && DataOk(t) && t.ver[p] == t.last
    requires forall n: nat | n < |t.parent| :: t.DirShape(n)
    ensures DataOk(Cleared(Entered(t, p, c, x), c))
  {
    var u := Cleared(Entered(t, p, c, x), c);
    forall n: nat | n < |t.parent| ensures CopyOk(u, n) {
      assert CopyOk(t, n) && t.DirShape(n);
      if n != c && n != p && u.st[n] != I && u.ver[n] != t.last {
        var y :| y in t.dir[n].sharers && y < |t.parent| && (t.st[y] == M || t.ver[y] != t.last);
        assert y != c && u.st[y] == t.st[y] && u.ver[y] == t.ver[y];
      }
    }
  }

  /** A writeback's data reaches p; a clean copy had none to lose. */
  lemma PutKeepsData(t: Tree, c: nat, kind: AccessType)
    requires t.Inv() && DataOk(t)
    requires Answerable(t, c, kind) && (kind == PUTS || (kind == PUTX && t.st[t.parent[c]] == M))
    ensures t.ver[c] == t.last && t.dir[t.parent[c]].numSharers > 0
    ensures DataOk(Cleared(PutDone(t, t.parent[c], c, kind), c))
  {
    RaceCheckRepairs(t, c);
    var p := t.parent[c];
    assert t.PendOk(c) && t.ChildOk(c) && CopyOk(t, c) && t.DirShape(p);
    var u := Cleared(PutDone(t, p, c, kind), c);
    forall n: nat | n < |t.parent| ensures CopyOk(u, n) {
      assert CopyOk(t, n) && t.DirShape(n);
      if u.st[n] != I && u.ver[n] != t.last {
        var y :| y in t.dir[n].sharers && y < |t.parent| && (t.st[y] == M || t.ver[y] != t.last);
        if n == p {
          Singleton(t.dir[p].sharers, c);
        } else {
          assert y != c;
          assert y in u.dir[n].sharers && (u.st[y] == M || u.ver[y] != t.last);
        }
      }
    }
  }

  /** A core writes in a cache that holds the line exclusively, with no copy below. */
  ghost function Written(t: Tree, n: nat): Tree
    requires t.Shape() && n < |t.parent|
  {
    t.(st := t.st[n := M], ver := t.ver[n := t.last + 1], last := t.last + 1)
  }

  /** Every other copy is an ancestor's, and leads to the writer. */
  lemma WriteKeepsData(t: Tree, n: nat)
    requires t.Inv() && n < |t.parent| && HasExclusive(t.st[n]) && t.dir[n].sharers == {} && DataOk(t)
    ensures DataOk(Written(t, n))
  {
    var u := Written(t, n);
    RootAbove(t, n);
    Inclusion(t, 0, n);
    forall x: nat | x < |t.parent| ensures CopyOk(u, x) {
      assert CopyOk(t, x);
      if u.st[x] != I && x != n {
        WriterPath(t, n, x);
        var y := t.Via(x, n);
        ViaChild(t, x, n);
        Inclusion(t, y, n);
        assert t.ChildOk(y) && CopyOk(t, y);
      }
    }
    assert CopyOk(t, 0);
  }

  lemma {:induction false} RootAbove(t: Tree, n: nat)
    requires t.Shape() && n < |t.parent|
    ensures t.InSub(0, n)
    decreases n
  {
    if n > 0 {
      RootAbove(t, t.parent[n]);
    }
  }

  /** While n holds the line exclusively and has no sharers below, only its ancestors hold it too. */
  lemma {:induction false} WriterPath(t: Tree, n: nat, x: nat)
    requires t.Inv() && n < |t.parent| && HasExclusive(t.st[n]) && t.dir[n].sharers == {}
    requires x < |t.parent| && t.st[x] != I && x != n
    ensures t.InSub(x, n)
    decreases x
  {
    RootAbove(t, n);
    if x > 0 {
      assert t.ChildOk(x);
      var p := t.parent[x];
      if p != n {
        WriterPath(t, n, p);
        var y := t.Via(p, n);
        ViaChild(t, p, n);
        Inclusion(t, y, n);
        assert t.ChildOk(y) && t.DirShape(p);
        Singleton(t.dir[p].sharers, y);
      }
    }
  }

  // ---- whole steps

  /** The answer to c's request from its parent's own line. The parent becomes modified for a GETX, or for a PUTX
      that tells it of a silent write below. */
  ghost function Answered(t: Tree, c: nat, kind: AccessType): (u: Tree)
    requires t.Inv() && Answerable(t, c, kind)
    ensures u.Inv() && u.parent == t.parent && u.pend == t.pend[c := None] && u.serving == t.serving[c := None]
    ensures match kind
            case GETS => u.st[c] == S || u.st[c] == E
            case GETX => u.st[c] == M
            case PUTS => u.st[c] == I
            case PUTX => u.st[c] == I
  {
    var p := t.parent[c];
    match kind
    case GETS =>
      GetsAnswers(t, c);
      Cleared(GetsDone(t, p, c, t.pend[c].value.noExcl), c)
    case GETX =>
      GetxAnswers(t, c);
      Cleared(GetxDone(Modified(t, p), p, c), c)
    case PUTS =>
      PutAnswers(t, c, PUTS);
      Cleared(PutDone(t, p, c, PUTS), c)
    case PUTX =>
      PutAnswers(t, c, PUTX);
      Cleared(PutDone(Modified(t, p), p, c, PUTX), c)
  }

  /** u is t with c's request gone and the invariant kept. */
  ghost predicate Answers(t: Tree, c: nat, u: Tree)
    requires t.Shape() && c < |t.parent|
  {
    u.Inv() && u.parent == t.parent && u.pend == t.pend[c := None] && u.serving == t.serving[c := None]
  }

  lemma GetsAnswers(t: Tree, c: nat)
    requires t.Inv() && Answerable(t, c, GETS)
    ensures var u := Cleared(GetsDone(t, t.parent[c], c, t.pend[c].value.noExcl), c);
      Answers(t, c, u) && (u.st[c] == S || u.st[c] == E)
  {
    GetsKeepsInv(t, c, t.pend[c].value.noExcl);
    hide Tree.ChildOk, Tree.DirShape, Tree.PendOk;
  }

  /** What the answer to a GETS finds, and what it is to leave. */
  lemma GetsReady(t: Tree, c: nat)
    requires t.Inv() && Answerable(t, c, GETS)
    ensures t.Shape() && t.pend[c].Some? && t.IsChild(t.parent[c], c) && t.parent[c] < |t.parent|
    ensures c !in t.dir[t.parent[c]].sharers && t.pend[t.parent[c]] == None
    ensures Answered(t, c, GETS) == Cleared(GetsDone(t, t.parent[c], c, t.pend[c].value.noExcl), c)
  {
    RaceCheckRepairs(t, c);
    assert t.ChildOk(c);
  }

  lemma GetxAnswers(t: Tree, c: nat)
    requires t.Inv() && Answerable(t, c, GETX)
    ensures var u := Cleared(GetxDone(Modified(t, t.parent[c]), t.parent[c], c), c);
      Answers(t, c, u) && u.st[c] == M
  {
    ModifiedKeepsInv(t, t.parent[c]);
    GetxKeepsInv(Modified(t, t.parent[c]), c);
    hide Tree.ChildOk, Tree.DirShape, Tree.PendOk;
  }

  lemma PutAnswers(t: Tree, c: nat, kind: AccessType)
    requires t.Inv() && Answerable(t, c, kind) && (kind == PUTS || kind == PUTX)
    ensures var p := t.parent[c];
      var m := if kind == PUTX then Modified(t, p) else t;
      m.dir[p].numSharers > 0 && Answers(t, c, Cleared(PutDone(m, p, c, kind), c))
  {
    var p := t.parent[c];
    RaceCheckRepairs(t, c);
    assert t.ChildOk(c);
    if kind == PUTX {
      ModifiedKeepsInv(t, p);
      PutKeepsInv(Modified(t, p), c, kind);
    } else {
      PutKeepsInv(t, c, kind);
    }
    hide Tree.ChildOk, Tree.DirShape, Tree.PendOk;
  }

  lemma GetsKeepsData(t: Tree, c: nat)
    requires t.Inv() && Answerable(t, c, GETS) && DataOk(t)
    ensures var u := Cleared(GetsDone(t, t.parent[c], c, t.pend[c].value.noExcl), c); u.Shape() && DataOk(u)
  {
    RaceCheckRepairs(t, c);
    var p := t.parent[c];
    assert t.DirShape(p) && CopyOk(t, p);
    if t.dir[p].IsEmpty() && HasExclusive(t.st[p]) && !t.pend[c].value.noExcl {
      EnteredKeepsData(t, p, c, E);
    } else {
      DowngradedKeepsData(t, p);
      DowngradedKeepsInv(t, p);
      hide DataOk, HitBelow, Raises, Tree.ChildOk, Tree.DirShape, Tree.PendOk;
      EnteredKeepsData(Collected(t, p, INVX), p, c, S);
    }
  }

  /** All other copies are gone, and p has the last write. */
  ghost predicate OthersGone(u: Tree, p: nat, c: nat) {
    && u.Shape() && u.IsChild(p, c) && DataOk(u) && u.ver[p] == u.last
    && forall n: nat | n < |u.parent| :: u.DirShape(n)
  }

  lemma OthersGo(t: Tree, c: nat)
    requires t.Inv() && 0 < c < |t.parent| && !HasExclusive(t.st[c]) && DataOk(t) && t.st[t.parent[c]] == M
    ensures OthersGone(HitBelow(TakenOut(t, t.parent[c], c), t.parent[c], INV), t.parent[c], c)
  {
    OthersInv(t, c);
    OthersData(t, c);
    hide DataOk, BelowInv, Tree.ChildOk, Tree.DirShape, Tree.PendOk;
  }

  lemma GetxKeepsData(t: Tree, c: nat)
    requires t.Inv() && Answerable(t, c, GETX) && DataOk(t)
    ensures var p := t.parent[c];
      var u := Cleared(GetxDone(Modified(t, p), p, c), c); u.Shape() && DataOk(u)
  {
    RaceCheckRepairs(t, c);
    var p := t.parent[c];
    ModifiedKeepsInv(t, p);
    ModifiedKeepsData(t, p);
    var m := Modified(t, p);
    OthersGo(m, c);
    hide DataOk, Tree.Inv, Tree.ChildOk, Tree.DirShape, Tree.PendOk, HitBelow, TakenOut;
    EnteredKeepsData(HitBelow(TakenOut(m, p, c), p, INV), p, c, M);
  }

  /** No answer loses a write. */
  lemma AnsweredKeepsData(t: Tree, c: nat, kind: AccessType)
    requires t.Inv() && Answerable(t, c, kind) && DataOk(t)
    ensures DataOk(Answered(t, c, kind)) && Answered(t, c, kind).last == t.last
  {
    match kind
    case GETS =>
      GetsKeepsData(t, c);
    case GETX =>
      GetxKeepsData(t, c);
    case PUTS =>
      PutKeepsData(t, c, PUTS);
    case PUTX =>
      RaceCheckRepairs(t, c);
      assert t.ChildOk(c);
      ModifiedKeepsInv(t, t.parent[c]);
      ModifiedKeepsData(t, t.parent[c]);
      PutKeepsData(Modified(t, t.parent[c]), c, PUTX);
  }

  /** An answered cache that was serving a child answers it in turn, down to the cache where the request began. */
  ghost function PassedDown(t: Tree, c: nat, served: Option<nat>): (u: Tree)
    requires t.Inv() && c < |t.parent| && t.pend[c] == None
    requires served.Some? ==> Awaits(t, c, served.value)
    ensures u.Inv() && u.parent == t.parent
    decreases |t.parent| - c
  {
    if served == None then t
    else
      var d, kind := served.value, t.pend[served.value].value.kind;
      AwaitsAnswerable(t, c, d);
      var u := Answered(t, d, kind);
      StillAwaits(t, d, kind);
      PassedDown(u, d, t.serving[d])
  }

  lemma {:induction false} PassedDownKeepsData(t: Tree, c: nat, served: Option<nat>)
    requires t.Inv() && c < |t.parent| && t.pend[c] == None && (served.Some? ==> Awaits(t, c, served.value))
    requires DataOk(t)
    ensures DataOk(PassedDown(t, c, served)) && PassedDown(t, c, served).last == t.last
    decreases |t.parent| - c
  {
    if served.Some? {
      var d, kind := served.value, t.pend[served.value].value.kind;
      AwaitsAnswerable(t, c, d);
      StillAwaits(t, d, kind);
      AnsweredKeepsData(t, d, kind);
      PassedDownKeepsData(Answered(t, d, kind), d, t.serving[d]);
    }
  }

  /** c has got what its child d asked for. */
  ghost predicate Awaits(t: Tree, c: nat, d: nat)
    requires t.Shape()
  {
    && c < |t.parent| && t.IsChild(c, d) && t.pend[c] == None && t.pend[d].Some?
    && match t.pend[d].value.kind
       case GETS => t.st[c] != I
       case GETX => t.st[c] == M
       case PUTS => false
       case PUTX => false
  }

  lemma AwaitsAnswerable(t: Tree, c: nat, d: nat)
    requires t.Inv() && Awaits(t, c, d)
    ensures Answerable(t, d, t.pend[d].value.kind)
  {
    RaceCheckRepairs(t, d);
    assert t.PendOk(d);
  }

  lemma StillAwaits(t: Tree, d: nat, kind: AccessType)
    requires t.Inv() && Answerable(t, d, kind) && t.pend[d].value.kind == kind
    ensures t.serving[d].Some? ==> Awaits(Answered(t, d, kind), d, t.serving[d].value)
  {
    assert t.PendOk(d);
  }

  /** Before the answer, a request may first have to fetch the line, or exclusivity, from further up. */
  ghost predicate MustFetch(t: Tree, p: nat, kind: AccessType)
    requires t.Shape() && p < |t.parent|
  {
    (kind == GETS && t.st[p] == I) || (kind == GETX && !HasExclusive(t.st[p]))
  }

  ghost function Fetching(t: Tree, c: nat, kind: AccessType): Tree
    requires t.Shape() && 0 < c < |t.parent| && t.pend[c].Some?
  {
    var p := t.parent[c];
    t.(pend := t.pend[p := Some(Request(kind, t.st[p], t.pend[c].value.noExcl))], serving := t.serving[p := Some(c)])
  }

  lemma FetchingKeepsInv(t: Tree, c: nat, kind: AccessType)
    requires t.Inv() && 0 < c < |t.parent| && t.pend[c].Some? && t.pend[t.parent[c]] == None
    requires CheckForMESIRace(t.pend[c].value.kind, t.st[c], t.pend[c].value.initial) == Go(kind)
    requires MustFetch(t, t.parent[c], kind)
    ensures Fetching(t, c, kind).Inv()
  {
    RaceCheckRepairs(t, c);
    var u := Fetching(t, c, kind);
    forall x: nat | 0 < x < |t.parent| ensures u.ChildOk(x) {
      assert t.ChildOk(x);
    }
    forall n: nat | n < |t.parent| ensures u.DirShape(n) && u.PendOk(n) {
      assert t.DirShape(n) && t.PendOk(n);
    }
  }

  /** The parent takes up c's request: it skips it, fetches the line first, or answers. */
  ghost function Served(t: Tree, c: nat): (u: Tree)
    requires t.Inv() && 0 < c < |t.parent| && t.pend[c].Some? && t.pend[t.parent[c]] == None
    ensures u.Inv() && u.parent == t.parent
  {
    RaceCheckRepairs(t, c);
    match CheckForMESIRace(t.pend[c].value.kind, t.st[c], t.pend[c].value.initial)
    case Skip => SkipKeepsInv(t, c); Cleared(t, c)
    case Go(kind) =>
      if MustFetch(t, t.parent[c], kind) then
        FetchingKeepsInv(t, c, kind);
        Fetching(t, c, kind)
      else
        assert t.PendOk(c);
        if kind == t.pend[c].value.kind then
          StillAwaits(t, c, kind);
          PassedDown(Answered(t, c, kind), c, t.serving[c])
        else Answered(t, c, kind)
    case Broken => t
  }

  lemma ServedKeepsData(t: Tree, c: nat)
    requires t.Inv() && 0 < c < |t.parent| && t.pend[c].Some? && t.pend[t.parent[c]] == None && DataOk(t)
    ensures DataOk(Served(t, c)) && Served(t, c).last == t.last
  {
    RaceCheckRepairs(t, c);
    assert t.PendOk(c);
    match CheckForMESIRace(t.pend[c].value.kind, t.st[c], t.pend[c].value.initial)
    case Broken => assert false;
    case Skip => RequestsCarryNoData(t, Cleared(t, c));
    case Go(kind) =>
      if MustFetch(t, t.parent[c], kind) {
        RequestsCarryNoData(t, Fetching(t, c, kind));
      } else {
        AnsweredKeepsData(t, c, kind);
        if kind == t.pend[c].value.kind {
          StillAwaits(t, c, kind);
          PassedDownKeepsData(Answered(t, c, kind), c, t.serving[c]);
        }
      }
  }

  lemma SkipKeepsInv(t: Tree, c: nat)
    requires t.Inv() && 0 < c < |t.parent| && t.pend[t.parent[c]] == None
    ensures Cleared(t, c).Inv()
  {
    var u := Cleared(t, c);
    forall x: nat | 0 < x < |t.parent| ensures u.ChildOk(x) {
      assert t.ChildOk(x);
    }
    forall n: nat | n < |t.parent| ensures u.DirShape(n) && u.PendOk(n) {
      assert t.DirShape(n) && t.PendOk(n);
    }
  }

  /** Memory answers the cache next to it: a PUT leaves it invalid, a GETS gives E unless refused, a GETX gives M. */
  function MemoryGives(r: Request): MESIState {
    match r.kind
    case PUTS => I
    case PUTX => I
    case GETS => if r.noExcl then S else E
    case GETX => M
  }

  /** Memory takes the version of a PUTX, and gives its own for a GETS or GETX. */
  ghost function MemoryAnswered(t: Tree): Tree
    requires t.Shape() && t.pend[0].Some?
  {
    var r := t.pend[0].value;
    var u := t.(st := t.st[0 := MemoryGives(r)],
                ver := if r.kind == GETS || r.kind == GETX then t.ver[0 := t.mem] else t.ver,
                mem := if r.kind == PUTX then t.ver[0] else t.mem);
    Cleared(u, 0)
  }

  ghost function FromMemory(t: Tree): (u: Tree)
    requires t.Inv() && t.pend[0].Some?
    ensures u.Inv() && u.parent == t.parent
  {
    FromMemoryKeepsInv(t);
    PassedDown(MemoryAnswered(t), 0, t.serving[0])
  }

  lemma FromMemoryKeepsInv(t: Tree)
    requires t.Inv() && t.pend[0].Some?
    ensures MemoryAnswered(t).Inv() && (t.serving[0].Some? ==> Awaits(MemoryAnswered(t), 0, t.serving[0].value))
  {
    var u := MemoryAnswered(t);
    assert t.PendOk(0) && t.DirShape(0);
    forall x: nat | 0 < x < |t.parent| ensures u.ChildOk(x) {
      assert t.ChildOk(x);
    }
    forall n: nat | n < |t.parent| ensures u.DirShape(n) && u.PendOk(n) {
      assert t.DirShape(n) && t.PendOk(n);
    }
  }

  /** The write of a PUTX reaches memory, and what memory gives out is the last write. */
  lemma MemoryKeepsData(t: Tree)
    requires t.Inv() && t.pend[0].Some? && DataOk(t)
    ensures DataOk(MemoryAnswered(t))
    ensures t.pend[0].value.kind == PUTX || t.st[0] == I ==> MemoryAnswered(t).mem == t.last
  {
    var u := MemoryAnswered(t);
    assert t.PendOk(0) && CopyOk(t, 0);
    forall x: nat | x < |t.parent| ensures CopyOk(u, x) {
      assert CopyOk(t, x) && t.DirShape(x);
    }
  }

  lemma FromMemoryKeepsData(t: Tree)
    requires t.Inv() && t.pend[0].Some? && DataOk(t)
    ensures DataOk(FromMemory(t)) && FromMemory(t).last == t.last
  {
    MemoryKeepsData(t);
    FromMemoryKeepsInv(t);
    PassedDownKeepsData(MemoryAnswered(t), 0, t.serving[0]);
  }

  lemma RequestsCarryNoData(t: Tree, u: Tree)
    requires t.Shape() && DataOk(t) && u == t.(pend := u.pend, serving := u.serving) && u.Shape()
    ensures DataOk(u)
  {
    forall x: nat | x < |t.parent| ensures CopyOk(u, x) {
      assert CopyOk(t, x);
    }
  }

  /** A cache sends a request up. */
  ghost function Issued(t: Tree, n: nat, kind: AccessType, noExcl: bool): Tree
    requires t.Shape() && n < |t.parent|
  {
    t.(pend := t.pend[n := Some(Request(kind, t.st[n], noExcl))])
  }

  lemma IssuedKeepsInv(t: Tree, n: nat, kind: AccessType, noExcl: bool)
    requires t.Inv() && n < |t.parent| && t.pend[n] == None
    requires match kind
             case GETS => t.st[n] == I
             case GETX => t.st[n] == I || t.st[n] == S
             case PUTS => (t.st[n] == S || t.st[n] == E) && t.dir[n].sharers == {}
             case PUTX => t.st[n] == M && t.dir[n].sharers == {}
    ensures Issued(t, n, kind, noExcl).Inv()
  {
    var u := Issued(t, n, kind, noExcl);
    forall x: nat | 0 < x < |t.parent| ensures u.ChildOk(x) {
      assert t.ChildOk(x);
    }
    forall x: nat | x < |t.parent| ensures u.DirShape(x) && u.PendOk(x) {
      assert t.DirShape(x) && t.PendOk(x);
    }
  }

  /** An eviction: the copies below go, dirty data from there makes this copy modified, and it asks to be put back. */
  ghost function Evicting(t: Tree, n: nat): Tree
    requires t.Shape() && n < |t.parent|
  {
    var v := Collected(t, n, INV);
    if v.st[n] == I then v else Issued(v, n, if v.st[n] == M then PUTX else PUTS, false)
  }

  lemma EvictingKeepsInv(t: Tree, n: nat)
    requires t.Inv() && n < |t.parent| && t.pend[n] == None
    ensures Evicting(t, n).Inv()
    ensures DirtyReached(t, n, |t.parent|) ==> HasExclusive(t.st[n])
  {
    HitKeepsInv(t, n, INV, 0);
    var u := HitBelow(t, n, INV);
    if DirtyReached(t, n, |t.parent|) {
      var m: nat :| Reached(t, n, |t.parent|, m) && t.st[m] == M;
      Inclusion(t, n, m);
      ModifiedKeepsInv(u, n);
      IssuedKeepsInv(Modified(u, n), n, PUTX, false);
    } else if u.st[n] != I {
      IssuedKeepsInv(u, n, if u.st[n] == M then PUTX else PUTS, false);
    }
  }

  lemma EvictingKeepsData(t: Tree, n: nat)
    requires t.Inv() && n < |t.parent| && t.pend[n] == None && DataOk(t)
    ensures DataOk(Evicting(t, n))
  {
    EvictingKeepsInv(t, n);
    StaleRaises(t, n);
    HitKeepsData(t, n, INV, 0);
    RequestsCarryNoData(Collected(t, n, INV), Evicting(t, n));
  }

  // ---- whole runs

  /** What can happen next: a cache asks for the line, or for exclusivity; a parent, or memory, takes up a request; a
      core writes; or a line is evicted. */
  datatype Event =
    | Issue(n: nat, kind: AccessType, noExcl: bool)
    | Serve(c: nat)
    | ServeFromMemory
    | Write(n: nat)
    | Evict(n: nat)

  ghost predicate Enabled(t: Tree, e: Event)
    requires t.Shape()
  {
    match e
    case Issue(n, kind, _) =>
      && n < |t.parent| && t.pend[n] == None
      && ((kind == GETS && t.st[n] == I) || (kind == GETX && (t.st[n] == I || t.st[n] == S)))
    case Serve(c) => 0 < c < |t.parent| && t.pend[c].Some? && t.pend[t.parent[c]] == None
    case ServeFromMemory => t.pend[0].Some?
    case Write(n) => n < |t.parent| && t.pend[n] == None && HasExclusive(t.st[n]) && t.dir[n].sharers == {}
    case Evict(n) => n < |t.parent| && t.pend[n] == None
  }

  ghost function After(t: Tree, e: Event): Tree
    requires t.Inv() && Enabled(t, e)
  {
    match e
    case Issue(n, kind, noExcl) => Issued(t, n, kind, noExcl)
    case Serve(c) => Served(t, c)
    case ServeFromMemory => FromMemory(t)
    case Write(n) => Written(t, n)
    case Evict(n) => Evicting(t, n)
  }

  lemma WrittenKeepsInv(t: Tree, n: nat)
    requires t.Inv() && n < |t.parent| && HasExclusive(t.st[n]) && t.pend[n] == None
    ensures Written(t, n).Inv()
  {
    ModifiedKeepsInv(t, n);
    var m, u := Modified(t, n), Written(t, n);
    forall x: nat | 0 < x < |t.parent| ensures u.ChildOk(x) {
      assert m.ChildOk(x);
    }
    forall x: nat | x < |t.parent| ensures u.DirShape(x) && u.PendOk(x) {
      assert m.DirShape(x) && m.PendOk(x);
    }
  }

  /** Every step keeps the invariant, and loses no write. */
  lemma StepKeeps(t: Tree, e: Event)
    requires t.Inv() && DataOk(t) && Enabled(t, e)
    ensures var u := After(t, e); u.Inv() && DataOk(u) && u.last == t.last + if e.Write? then 1 else 0
  {
    match e
    case Issue(n, kind, noExcl) =>
      IssuedKeepsInv(t, n, kind, noExcl);
      RequestsCarryNoData(t, Issued(t, n, kind, noExcl));
    case Serve(c) =>
      ServedKeepsData(t, c);
    case ServeFromMemory =>
      FromMemoryKeepsData(t);
    case Write(n) =>
      WrittenKeepsInv(t, n);
      WriteKeepsData(t, n);
    case Evict(n) =>
      EvictingKeepsInv(t, n);
      EvictingKeepsData(t, n);
  }

  /** All caches are empty. */
  ghost predicate Initial(t: Tree) {
    && t.Shape() && t.mem == t.last == 0
    && forall n: nat | n < |t.parent| ::
        && t.st[n] == I && t.dir[n] == Entry(0, {}, {}, false)
        && t.pend[n] == None && t.serving[n] == None && t.ver[n] == 0
  }

  /** The events lead from t to u. */
  ghost predicate Runs(t: Tree, es: seq<Event>, u: Tree) {
    if es == [] then u == t
    else exists v: Tree :: Runs(t, es[..|es| - 1], v) && v.Inv() && Leads(v, es[|es| - 1], u)
  }

  ghost predicate Leads(t: Tree, e: Event, u: Tree)
    requires t.Inv()
  {
    Enabled(t, e) && u == After(t, e)
  }

  function Writes(es: seq<Event>): nat {
    if es == [] then 0 else Writes(es[..|es| - 1]) + if es[|es| - 1].Write? then 1 else 0
  }

  /** On every run, what a cache without children may read is the latest write, the one whose number is the number of
      writes so far; and if no cache is modified, memory has it. */
  lemma {:induction false} ReadersSeeTheLatestWrite(t: Tree, es: seq<Event>, u: Tree)
    requires Initial(t) && Runs(t, es, u)
    ensures u.Inv() && DataOk(u)
    ensures forall n: nat | n < |u.parent| && u.st[n] != I && u.dir[n].sharers == {} :: u.ver[n] == Writes(es)
    ensures (forall n: nat | n < |u.parent| :: u.st[n] != M) ==> u.mem == Writes(es)
  {
    RunKeeps(t, es, u);
    LastWriteIsSomewhere(u);
  }

  lemma {:induction false} RunKeeps(t: Tree, es: seq<Event>, u: Tree)
    requires Initial(t) && Runs(t, es, u)
    ensures u.Inv() && DataOk(u) && u.last == Writes(es)
  {
    if es == [] {
      forall x: nat | 0 < x < |t.parent| ensures t.ChildOk(x) {
        assert t.dir[t.parent[x]].sharers == {};
      }
      assert forall n: nat | n < |t.parent| :: t.DirShape(n) && t.PendOk(n) && CopyOk(t, n);
    } else {
      var es' := es[..|es| - 1];
      var v: Tree :| Runs(t, es', v) && v.Inv() && Leads(v, es[|es| - 1], u);
      RunKeeps(t, es', v);
      StepKeeps(v, es[|es| - 1]);
    }
  }

  // ---- progress

  function Depth(t: Tree, c: nat): nat
    requires forall x: nat | 0 < x < |t.parent| :: t.parent[x] < x
    decreases c
  {
    if c == 0 || c >= |t.parent| then 0 else Depth(t, t.parent[c]) + 1
  }

  /** How far a request still has to go, memory included; nothing if the parent is serving it. */
  ghost function Weight(t: Tree, c: nat): nat
    requires t.Shape() && c < |t.parent|
  {
    if t.pend[c] == None || (c > 0 && t.serving[t.parent[c]] == Some(c)) then 0 else Depth(t, c) + 1
  }

  ghost function TotalWeight(t: Tree, n: nat): nat
    requires t.Shape() && n <= |t.parent|
  {
    if n == 0 then 0 else TotalWeight(t, n - 1) + Weight(t, n - 1)
  }

  lemma {:induction false} SameDepth(t: Tree, u: Tree, c: nat)
    requires t.Shape() && u.Shape() && u.parent == t.parent
    ensures Depth(u, c) == Depth(t, c)
    decreases c
  {
    if 0 < c < |t.parent| {
      SameDepth(t, u, t.parent[c]);
    }
  }

  /** If one weight falls by more than another rises, and no other rises, the total falls. */
  lemma {:induction false} TotalFalls(t: Tree, u: Tree, c: nat, p: nat, n: nat)
    requires t.Shape() && u.Shape() && u.parent == t.parent && c < |t.parent| && p < c && n <= |t.parent|
    requires forall x: nat | x < |t.parent| && x != p :: Weight(u, x) <= Weight(t, x)
    requires Weight(u, p) + Weight(u, c) < Weight(t, p) + Weight(t, c)
    ensures n > c ==> TotalWeight(u, n) < TotalWeight(t, n)
    ensures p < n <= c ==> TotalWeight(u, n) <= TotalWeight(t, n) - Weight(t, p) + Weight(u, p)
    ensures n <= p ==> TotalWeight(u, n) <= TotalWeight(t, n)
  {
    if n > 0 {
      TotalFalls(t, u, c, p, n - 1);
    }
  }

  /** An answered request has no weight left, and those waiting elsewhere have what they had. */
  lemma {:induction false} PassedDownWeights(t: Tree, c: nat, served: Option<nat>)
    requires t.Inv() && c < |t.parent| && t.pend[c] == None && (served.Some? ==> Awaits(t, c, served.value))
    ensures var u := PassedDown(t, c, served);
      forall x: nat | x < |t.parent| :: Weight(u, x) <= if served == Some(x) then 0 else Weight(t, x)
    decreases |t.parent| - c
  {
    if served.Some? {
      var d, kind := served.value, t.pend[served.value].value.kind;
      AwaitsAnswerable(t, c, d);
      StillAwaits(t, d, kind);
      var a := Answered(t, d, kind);
      AnsweredWeights(t, d, kind);
      PassedDownWeights(a, d, t.serving[d]);
      assert t.PendOk(d);
    }
  }

  lemma AnsweredWeights(t: Tree, c: nat, kind: AccessType)
    requires t.Inv() && Answerable(t, c, kind)
    ensures var u := Answered(t, c, kind);
      forall x: nat | x < |t.parent| && t.serving[c] != Some(x) :: Weight(u, x) <= if x == c then 0 else Weight(t, x)
  {
    var u := Answered(t, c, kind);
    forall x: nat | x < |t.parent| && t.serving[c] != Some(x)
      ensures Weight(u, x) <= if x == c then 0 else Weight(t, x)
    {
      SameDepth(t, u, x);
    }
  }

  lemma FetchingFalls(t: Tree, c: nat, kind: AccessType)
    requires t.Inv() && 0 < c < |t.parent| && t.pend[c].Some? && t.pend[t.parent[c]] == None
    requires Fetching(t, c, kind).Shape()
    ensures TotalWeight(Fetching(t, c, kind), |t.parent|) < TotalWeight(t, |t.parent|)
  {
    var u, p := Fetching(t, c, kind), t.parent[c];
    assert t.PendOk(p);
    forall x: nat | x < |t.parent| && x != p ensures Weight(u, x) <= if x == c then 0 else Weight(t, x) {
      SameDepth(t, u, x);
    }
    SameDepth(t, u, p);
    TotalFalls(t, u, c, p, |t.parent|);
  }

  lemma ClearedFalls(t: Tree, c: nat)
    requires t.Inv() && 0 < c < |t.parent| && t.pend[c].Some? && t.pend[t.parent[c]] == None && t.serving[c] == None
    ensures TotalWeight(Cleared(t, c), |t.parent|) < TotalWeight(t, |t.parent|)
  {
    var u, p := Cleared(t, c), t.parent[c];
    assert t.PendOk(p);
    forall x: nat | x < |t.parent| ensures Weight(u, x) <= if x == c then 0 else Weight(t, x) {
      SameDepth(t, u, x);
    }
    TotalFalls(t, u, c, p, |t.parent|);
  }

  /** The whole chain of requests that c's answer leads down to has no weight left. */
  lemma ChainAnswered(t: Tree, c: nat, kind: AccessType) returns (u: Tree)
    requires t.Inv() && Answerable(t, c, kind) && (kind == t.pend[c].value.kind || t.serving[c] == None)
    ensures t.serving[c].Some? ==> Awaits(Answered(t, c, kind), c, t.serving[c].value)
    ensures u == PassedDown(Answered(t, c, kind), c, t.serving[c]) && u.Shape() && u.parent == t.parent
    ensures forall x: nat | x < |t.parent| :: Weight(u, x) <= if x == c then 0 else Weight(t, x)
  {
    if kind == t.pend[c].value.kind {
      StillAwaits(t, c, kind);
    }
    assert t.PendOk(c);
    AnsweredWeights(t, c, kind);
    hide Answered, PassedDown, Tree.ChildOk, Tree.DirShape, Weight;
    PassedDownWeights(Answered(t, c, kind), c, t.serving[c]);
    u := PassedDown(Answered(t, c, kind), c, t.serving[c]);
  }

  lemma TopWeighs(t: Tree, c: nat)
    requires t.Inv() && 0 < c < |t.parent| && t.pend[c].Some? && t.pend[t.parent[c]] == None
    ensures Weight(t, c) > 0
  {
    assert t.PendOk(t.parent[c]);
  }

  lemma AnsweredFalls(t: Tree, c: nat, kind: AccessType)
    requires t.Inv() && Answerable(t, c, kind) && (kind == t.pend[c].value.kind || t.serving[c] == None)
    ensures var a := Answered(t, c, kind);
      && (t.serving[c].Some? ==> Awaits(a, c, t.serving[c].value))
      && TotalWeight(PassedDown(a, c, t.serving[c]), |t.parent|) < TotalWeight(t, |t.parent|)
  {
    TopWeighs(t, c);
    hide Answered, PassedDown, Awaits, Tree.ChildOk, Tree.DirShape, Tree.PendOk, Weight;
    var u := ChainAnswered(t, c, kind);
    TotalFalls(t, u, c, t.parent[c], |t.parent|);
  }

  /** Without new requests, all get answered: taking one up brings the total weight down, whatever it leads to. */
  lemma ServedMakesProgress(t: Tree, c: nat)
    requires t.Inv() && 0 < c < |t.parent| && t.pend[c].Some? && t.pend[t.parent[c]] == None
    ensures TotalWeight(Served(t, c), |t.parent|) < TotalWeight(t, |t.parent|)
  {
    RaceCheckRepairs(t, c);
    assert t.PendOk(c);
    match CheckForMESIRace(t.pend[c].value.kind, t.st[c], t.pend[c].value.initial)
    case Broken => assert false;
    case Skip => ClearedFalls(t, c);
    case Go(kind) =>
      if MustFetch(t, t.parent[c], kind) {
        FetchingKeepsInv(t, c, kind);
        FetchingFalls(t, c, kind);
      } else {
        AnsweredFalls(t, c, kind);
      }
  }

  lemma MemoryAnsweredWeights(t: Tree)
    requires t.Inv() && t.pend[0].Some?
    ensures var m := MemoryAnswered(t);
      forall x: nat | x < |t.parent| && t.serving[0] != Some(x) :: Weight(m, x) <= if x == 0 then 0 else Weight(t, x)
  {
    var m := MemoryAnswered(t);
    forall x: nat | x < |t.parent| && t.serving[0] != Some(x)
      ensures Weight(m, x) <= if x == 0 then 0 else Weight(t, x)
    {
      SameDepth(t, m, x);
    }
  }

  lemma FromMemoryMakesProgress(t: Tree)
    requires t.Inv() && t.pend[0].Some?
    ensures TotalWeight(FromMemory(t), |t.parent|) < TotalWeight(t, |t.parent|)
  {
    FromMemoryKeepsInv(t);
    assert t.PendOk(0);
    hide Tree.DirShape, Tree.ChildOk, Tree.PendOk;
    MemoryAnsweredWeights(t);
    PassedDownWeights(MemoryAnswered(t), 0, t.serving[0]);
    TotalFallsAtRoot(t, FromMemory(t), |t.parent|);
  }

  lemma {:induction false} TotalFallsAtRoot(t: Tree, u: Tree, n: nat)
    requires t.Shape() && u.Shape() && u.parent == t.parent && n <= |t.parent|
    requires forall x: nat | x < |t.parent| :: Weight(u, x) <= Weight(t, x)
    requires Weight(u, 0) < Weight(t, 0)
    ensures n > 0 ==> TotalWeight(u, n) < TotalWeight(t, n)
  {
    if n > 1 {
      TotalFallsAtRoot(t, u, n - 1);
    }
  }

  /** While any request is pending, some parent, or memory, can take one up. */
  lemma {:induction false} SomeRequestCanBeServed(t: Tree, c: nat) returns (s: nat)
    requires t.Inv() && c < |t.parent| && t.pend[c].Some?
    ensures s <= c && t.pend[s].Some? && (s == 0 || t.pend[t.parent[s]] == None)
    decreases c
  {
    if c == 0 || t.pend[t.parent[c]] == None {
      s := c;
    } else {
      s := SomeRequestCanBeServed(t, t.parent[c]);
    }
  }
}
