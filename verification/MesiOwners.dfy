/** The owner bits in the directories of src/coherence_ctrls.h: which children have fetched the line. */
module MesiOwners {
  import opened Coherence
  import opened MesiOutcomes
  import opened MesiSteps
  import opened MesiTree
  import opened Options

  /** The children of n that asked for the line, and have been answered. */
  ghost function Fetchers(t: Tree, u: Tree, n: nat): set<nat>
    requires t.Shape() && u.Shape() && u.parent == t.parent
  {
    set x | 0 < x < |t.parent| && t.parent[x] == n && t.pend[x].Some? && !IsPut(t.pend[x]) && u.pend[x] == None
  }

  /** Who got the line has become an owner; nobody has lost an owner bit, and nobody else has one now. */
  ghost predicate OwnersAre(t: Tree, u: Tree)
    requires t.Shape()
  {
    && u.Shape() && u.parent == t.parent
    && forall n: nat | n < |t.parent| :: u.dir[n].owners == t.dir[n].owners + Fetchers(t, u, n)
  }

  /** Some requests were answered, and no new ones sent. */
  ghost predicate OnlyAnswered(t: Tree, u: Tree)
    requires t.Shape()
  {
    u.Shape() && u.parent == t.parent && forall x: nat | x < |t.parent| :: u.pend[x] == t.pend[x] || u.pend[x] == None
  }

  lemma OwnersTrans(t: Tree, a: Tree, u: Tree)
    requires t.Shape() && OnlyAnswered(t, a) && OnlyAnswered(a, u) && OwnersAre(t, a) && OwnersAre(a, u)
    ensures OnlyAnswered(t, u) && OwnersAre(t, u)
  {
    forall n: nat | n < |t.parent| ensures u.dir[n].owners == t.dir[n].owners + Fetchers(t, u, n) {
      assert Fetchers(t, u, n) == Fetchers(t, a, n) + Fetchers(a, u, n);
    }
  }

  /** Every other answer leaves the owner bits alone. */
  lemma SameOwners(t: Tree, u: Tree)
    requires t.Shape() && u.Shape() && u.parent == t.parent
    requires forall n: nat | n < |t.parent| :: u.dir[n].owners == t.dir[n].owners
    requires forall x: nat | x < |t.parent| && t.pend[x].Some? && !IsPut(t.pend[x]) :: u.pend[x] != None
    ensures OwnersAre(t, u)
  {
  }

  /** Invalidations keep all owner bits. */
  lemma HitOwners(t: Tree, p: nat, k: InvType)
    requires t.Shape() && p < |t.parent|
    ensures forall n: nat | n < |t.parent| :: HitBelow(t, p, k).dir[n].owners == t.dir[n].owners
  {
  }

  /** c enters a directory that has the same owner bits as before. */
  lemma EnteredOwners(t: Tree, v: Tree, c: nat, x: MESIState)
    requires t.Shape() && v.Shape() && v.parent == t.parent && v.pend == t.pend && 0 < c < |t.parent|
    requires t.pend[c].Some? && !IsPut(t.pend[c])
    requires forall n: nat | n < |t.parent| :: v.dir[n].owners == t.dir[n].owners
    ensures var a := Cleared(Entered(v, t.parent[c], c, x), c); OnlyAnswered(t, a) && OwnersAre(t, a)
  {
    var a := Cleared(Entered(v, t.parent[c], c, x), c);
    forall n: nat | n < |t.parent| ensures a.dir[n].owners == t.dir[n].owners + Fetchers(t, a, n) {
      assert Fetchers(t, a, n) == if n == t.parent[c] then {c} else {};
    }
  }

  lemma GetOwners(t: Tree, c: nat, kind: AccessType)
    requires t.Inv() && Answerable(t, c, kind) && (kind == GETS || kind == GETX)
    ensures OnlyAnswered(t, Answered(t, c, kind)) && OwnersAre(t, Answered(t, c, kind))
  {
    SameKindBehind(t, c, kind);
    var p := t.parent[c];
    if kind == GETX {
      var x := TakenOut(Modified(t, p), p, c);
      HitOwners(x, p, INV);
      hide HitBelow, OnlyAnswered, OwnersAre, Tree.Inv;
      EnteredOwners(t, HitBelow(x, p, INV), c, M);
    } else if t.dir[p].IsEmpty() && HasExclusive(t.st[p]) && !t.pend[c].value.noExcl {
      hide OnlyAnswered, OwnersAre, Tree.Inv;
      EnteredOwners(t, t, c, E);
    } else {
      HitOwners(t, p, INVX);
      Downgraded(t, p);
      hide HitBelow, DownAt, OnlyAnswered, OwnersAre, Tree.Inv;
      EnteredOwners(t, Collected(t, p, INVX), c, S);
    }
  }

  lemma PutOwners(t: Tree, c: nat, kind: AccessType)
    requires t.Inv() && Answerable(t, c, kind) && (kind == PUTS || kind == PUTX)
    ensures OnlyAnswered(t, Answered(t, c, kind)) && OwnersAre(t, Answered(t, c, kind))
  {
    PutEndsHere(t, c, kind);
    PutOne(t, c, kind);
    hide PutAnswered, Tree.Inv;
    SameOwners(t, Answered(t, c, kind));
  }

  lemma AnsweredOwners(t: Tree, c: nat, kind: AccessType)
    requires t.Inv() && Answerable(t, c, kind)
    ensures OnlyAnswered(t, Answered(t, c, kind)) && OwnersAre(t, Answered(t, c, kind))
  {
    hide Answered, OnlyAnswered, OwnersAre;
    if kind == GETS || kind == GETX {
      GetOwners(t, c, kind);
    } else {
      PutOwners(t, c, kind);
    }
  }

  lemma {:induction false} PassedDownOwners(t: Tree, c: nat, served: Option<nat>)
    requires t.Inv() && c < |t.parent| && t.pend[c] == None && (served.Some? ==> Awaits(t, c, served.value))
    ensures OnlyAnswered(t, PassedDown(t, c, served)) && OwnersAre(t, PassedDown(t, c, served))
    decreases |t.parent| - c
  {
    hide OwnersAre, OnlyAnswered, Answered, Tree.ChildOk, Tree.DirShape, Tree.PendOk;
    if served.Some? {
      var d, kind := served.value, t.pend[served.value].value.kind;
      AwaitsAnswerable(t, c, d);
      StillAwaits(t, d, kind);
      AnsweredOwners(t, d, kind);
      var a := Answered(t, d, kind);
      PassedDownOwners(a, d, t.serving[d]);
      OwnersTrans(t, a, PassedDown(t, c, served));
    } else {
      NothingOwned(t);
    }
  }

  lemma NothingOwned(t: Tree)
    requires t.Inv()
    ensures OnlyAnswered(t, t) && OwnersAre(t, t)
  {
  }

  lemma ServedOwners(t: Tree, c: nat)
    requires t.Inv() && 0 < c < |t.parent| && t.pend[c].Some? && t.pend[t.parent[c]] == None
    ensures OwnersAre(t, Served(t, c))
  {
    RaceCheckRepairs(t, c);
    assert t.PendOk(c);
    hide Tree.ChildOk, Tree.DirShape, Answered, PassedDown;
    match CheckForMESIRace(t.pend[c].value.kind, t.st[c], t.pend[c].value.initial)
    case Broken => assert false;
    case Skip => SameOwners(t, Cleared(t, c));
    case Go(kind) =>
      if MustFetch(t, t.parent[c], kind) {
        SameOwners(t, Fetching(t, c, kind));
      } else {
        AnsweredOwners(t, c, kind);
        if kind == t.pend[c].value.kind {
          StillAwaits(t, c, kind);
          PassedDownOwners(Answered(t, c, kind), c, t.serving[c]);
          OwnersTrans(t, Answered(t, c, kind), PassedDown(Answered(t, c, kind), c, t.serving[c]));
        }
      }
  }

  lemma FromMemoryOwners(t: Tree)
    requires t.Inv() && t.pend[0].Some?
    ensures OwnersAre(t, FromMemory(t))
  {
    FromMemoryKeepsInv(t);
    var a := MemoryAnswered(t);
    assert OnlyAnswered(t, a);
    forall n: nat | n < |t.parent| ensures a.dir[n].owners == t.dir[n].owners + Fetchers(t, a, n) {
      assert Fetchers(t, a, n) == {};
    }
    PassedDownOwners(a, 0, t.serving[0]);
    OwnersTrans(t, a, FromMemory(t));
  }

  lemma EvictingOwners(t: Tree, n: nat)
    requires t.Inv() && n < |t.parent| && t.pend[n] == None
    ensures OwnersAre(t, Evicting(t, n))
  {
    HitOwners(t, n, INV);
    EvictingIsEvicted(t, n);
    hide Tree.Inv, HitBelow;
    SameOwners(t, Evicting(t, n));
  }

  /** The owner bits that checkSameOwner reads: whatever happens, a cache's bits are those it had and those of the
      children whose GETS or GETX has just been answered; invalidations, writebacks and evictions clear none. */
  lemma OwnersRecordWhoFetched(t: Tree, e: Event)
    requires t.Inv() && Enabled(t, e)
    ensures OwnersAre(t, After(t, e))
  {
    hide OwnersAre, Tree.ChildOk, Tree.DirShape, Tree.PendOk;
    match e
    case Issue(n, kind, noExcl) => SameOwners(t, Issued(t, n, kind, noExcl));
    case Serve(c) => ServedOwners(t, c);
    case ServeFromMemory => FromMemoryOwners(t);
    case Write(n) => SameOwners(t, Written(t, n));
    case Evict(n) => EvictingOwners(t, n);
  }
}
