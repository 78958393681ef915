/** What the steps of the MESI protocol leave behind, said of the states before and after only. */
module MesiOutcomes {
  import opened Coherence
  import opened MesiSteps
  import opened MesiTree
  import opened Options
  import opened Sets

  /** x is c, or waits for c's request to be answered, itself served by the cache above it. */
  ghost predicate Behind(t: Tree, c: nat, x: nat)
    requires t.Shape()
    decreases |t.parent| - c
  {
    && c < |t.parent|
    && (x == c || (t.serving[c].Some? && t.IsChild(c, t.serving[c].value) && Behind(t, t.serving[c].value, x)))
  }

  /** Where the request that c sent up began. */
  ghost function Origin(t: Tree, c: nat): nat
    requires t.Shape()
    decreases |t.parent| - c
  {
    if c < |t.parent| && t.serving[c].Some? && t.IsChild(c, t.serving[c].value) then Origin(t, t.serving[c].value)
    else c
  }

  /** The requests of c and of those that wait behind it are gone, and no others. */
  ghost predicate ChainGone(t: Tree, u: Tree, c: nat)
    requires t.Shape() && u.Shape() && u.parent == t.parent
  {
    forall x: nat | x < |t.parent| ::
      if Behind(t, c, x) then u.pend[x] == None && u.serving[x] == None
      else u.pend[x] == t.pend[x] && u.serving[x] == t.serving[x]
  }

  /** Nothing changes outside n's subtree, in memory neither. */
  ghost predicate OutsideKept(t: Tree, u: Tree, n: nat)
    requires t.Shape() && u.Shape() && u.parent == t.parent
  {
    && u.mem == t.mem && u.last == t.last
    && forall m: nat | m < |t.parent| && !t.InSub(n, m) ::
        u.st[m] == t.st[m] && u.dir[m] == t.dir[m] && u.ver[m] == t.ver[m]
  }

  /** x asked for the line and has it: in E if nobody else had it from the parent, the parent has it exclusively and x
      did not refuse E, and in S otherwise. The former sharers are listed still. */
  ghost predicate GotLine(t: Tree, u: Tree, x: nat)
    requires t.Shape() && u.Shape() && u.parent == t.parent && 0 < x < |t.parent| && t.pend[x].Some?
  {
    var p := t.parent[x];
    && u.dir[p].sharers == t.dir[p].sharers + {x}
    && (u.st[x] == E <==> t.dir[p].sharers == {} && HasExclusive(u.st[p]) && !t.pend[x].value.noExcl)
    && (u.st[x] == E || u.st[x] == S)
  }

  /** The answer to c's GETS, and to those that wait behind it. An exclusive sharer is downgraded with everything below
      it, and if a modified copy was among that, the parent is modified. */
  ghost predicate GetsAnswered(t: Tree, u: Tree, c: nat)
    requires t.Shape() && u.Shape() && u.parent == t.parent && 0 < c < |t.parent|
  {
    var p := t.parent[c];
    && OutsideKept(t, u, p) && ChainGone(t, u, c)
    && u.st[p] == (if Dirty(t, p) then M else t.st[p])
    && (forall x: nat | Behind(t, c, x) :: 0 < x < |t.parent| && t.pend[x].Some? && GotLine(t, u, x))
    && (forall m: nat | t.InSub(p, m) && m != p && !Behind(t, c, m) :: u.st[m] == if t.st[m] == I then I else S)
  }

  /** The answer to c's GETX, and to those that wait behind it: they are modified, and each is its parent's only sharer.
      All other copies below the parent are gone, except below the cache where the request began. */
  ghost predicate GetxAnswered(t: Tree, u: Tree, c: nat)
    requires t.Shape() && u.Shape() && u.parent == t.parent && 0 < c < |t.parent|
  {
    var p := t.parent[c];
    && OutsideKept(t, u, p) && ChainGone(t, u, c) && u.st[p] == M
    && (forall x: nat | Behind(t, c, x) ::
          0 < x < |t.parent| && u.st[x] == M && u.dir[t.parent[x]].sharers == {x})
    && (forall m: nat | t.InSub(p, m) && m != p && !Behind(t, c, m) ::
          u.st[m] == if t.InSub(Origin(t, c), m) then t.st[m] else I)
  }

  /** A copy is put back: it is invalid and delisted, and dirty data makes the parent modified. */
  ghost predicate PutAnswered(t: Tree, u: Tree, c: nat)
    requires t.Shape() && u.Shape() && u.parent == t.parent && 0 < c < |t.parent|
  {
    var p := t.parent[c];
    && ChainGone(t, u, c) && u.st[c] == I && u.dir[p].sharers == t.dir[p].sharers - {c} && c !in u.dir[p].sharers
    && u.st[p] == (if t.st[c] == M then M else t.st[p])
    && u.ver[p] == (if t.st[c] == M then t.ver[c] else t.ver[p]) && u.mem == t.mem && u.last == t.last
    && forall m: nat | m < |t.parent| && m != p ::
        u.dir[m] == t.dir[m] && (m != c ==> u.st[m] == t.st[m] && u.ver[m] == t.ver[m])
  }

  /** The parent must ask for the line, or for exclusivity, first: c waits on, and is served by the parent. */
  ghost predicate SentOn(t: Tree, u: Tree, c: nat)
    requires t.Shape() && u.Shape() && u.parent == t.parent && 0 < c < |t.parent| && t.pend[c].Some?
  {
    var p, r := t.parent[c], t.pend[c].value;
    && u == t.(pend := u.pend, serving := u.serving)
    && u.pend[p] == Some(Request(r.kind, t.st[p], r.noExcl)) && u.serving[p] == Some(c)
    && forall m: nat | m < |t.parent| && m != p :: u.pend[m] == t.pend[m] && u.serving[m] == t.serving[m]
  }

  /** What becomes of a request when the parent takes it up. */
  ghost predicate TakenUp(t: Tree, u: Tree, c: nat)
    requires t.Shape() && u.Shape() && u.parent == t.parent && 0 < c < |t.parent| && t.pend[c].Some?
  {
    var p := t.parent[c];
    match t.pend[c].value.kind
    case GETS => if t.st[p] == I then SentOn(t, u, c) else GetsAnswered(t, u, c)
    case GETX => if !HasExclusive(t.st[p]) then SentOn(t, u, c) else GetxAnswered(t, u, c)
    case _ =>
      if t.st[c] == I then u == t.(pend := u.pend, serving := u.serving) && ChainGone(t, u, c) else PutAnswered(t, u, c)
  }

  /** What becomes of a request that memory takes up: E unless refused, or M, and so on for those that wait behind. */
  ghost predicate TakenUpByMemory(t: Tree, u: Tree)
    requires t.Shape() && u.Shape() && u.parent == t.parent && t.pend[0].Some?
  {
    && ChainGone(t, u, 0) && u.last == t.last
    && match t.pend[0].value.kind
       case GETS =>
         && u.mem == t.mem && u.st[0] == (if t.pend[0].value.noExcl then S else E)
         && (forall x: nat | Behind(t, 0, x) && x != 0 :: x < |t.parent| && t.pend[x].Some? && GotLine(t, u, x))
         && (forall m: nat | 0 < m < |t.parent| && !Behind(t, 0, m) :: u.st[m] == I)
       case GETX =>
         && u.mem == t.mem && u.st[0] == M
         && (forall x: nat | Behind(t, 0, x) && x != 0 ::
               x < |t.parent| && u.st[x] == M && u.dir[t.parent[x]].sharers == {x})
         && (forall m: nat | 0 < m < |t.parent| && !Behind(t, 0, m) ::
               u.st[m] == if t.InSub(Origin(t, 0), m) then t.st[m] else I)
       case kind =>
         && u.st == t.st[0 := I] && u.dir == t.dir && u.ver == t.ver
         && u.mem == if kind == PUTX then t.ver[0] else t.mem
  }

  // ---- chains of requests

  lemma {:induction false} BehindIsBelow(t: Tree, c: nat, x: nat)
    requires t.Shape() && Behind(t, c, x)
    ensures t.InSub(c, x) && c <= x
    decreases |t.parent| - c
  {
    if x != c {
      BehindIsBelow(t, t.serving[c].value, x);
      SubOfChild(t, c, t.serving[c].value, x);
    }
  }

  lemma {:induction false} OriginIsBelow(t: Tree, c: nat)
    requires t.Shape() && c < |t.parent|
    ensures t.InSub(c, Origin(t, c)) && Behind(t, c, Origin(t, c))
    decreases |t.parent| - c
  {
    if t.serving[c].Some? && t.IsChild(c, t.serving[c].value) {
      OriginIsBelow(t, t.serving[c].value);
      SubOfChild(t, c, t.serving[c].value, Origin(t, c));
    }
  }

  /** A chain depends only on who serves whom below its top. */
  lemma {:induction false} SameChain(t: Tree, u: Tree, c: nat)
    requires t.Shape() && u.Shape() && u.parent == t.parent
    requires forall m: nat | c <= m < |t.parent| :: u.serving[m] == t.serving[m]
    ensures forall x: nat :: Behind(u, c, x) <==> Behind(t, c, x)
    ensures Origin(u, c) == Origin(t, c)
    decreases |t.parent| - c
  {
    if c < |t.parent| && t.serving[c].Some? && t.IsChild(c, t.serving[c].value) {
      SameChain(t, u, t.serving[c].value);
    }
  }

  // ---- answers to single requests

  lemma SubInvOfInv(t: Tree, n: nat)
    requires t.Inv() && n < |t.parent|
    ensures t.SubInv(n)
  {
    forall m: nat | t.InSub(n, m) ensures t.DirShape(m) && (m != n ==> t.ChildOk(m)) {
      assert t.DirShape(m);
    }
  }

  /** What downgrading the sharers of p leaves at m. */
  ghost predicate DownAt(t: Tree, v: Tree, p: nat, m: nat)
    requires t.Shape() && m < |t.parent|
  {
    && v.Shape() && v.parent == t.parent && v.mem == t.mem && v.last == t.last && v.dir[m].sharers == t.dir[m].sharers
    && (t.InSub(p, m) && m != p ==> v.st[m] == if t.st[m] == I then I else S)
    && (!t.InSub(p, m) ==> v.st[m] == t.st[m] && v.dir[m] == t.dir[m] && v.ver[m] == t.ver[m])
  }

  lemma DowngradedAt(t: Tree, p: nat, m: nat)
    requires t.Inv() && p < |t.parent| && m < |t.parent|
    ensures DownAt(t, Collected(t, p, INVX), p, m)
  {
    SubInvOfInv(t, p);
    if t.InSub(p, m) && m != p {
      NotReached(t, p, m);
    }
  }

  lemma DowngradedSelf(t: Tree, p: nat)
    requires t.Inv() && p < |t.parent|
    ensures Collected(t, p, INVX).Shape()
    ensures Collected(t, p, INVX).st[p] == if Dirty(t, p) then M else t.st[p]
  {
    SubInvOfInv(t, p);
    DirtyIsReached(t, p);
    SelfUntouched(t, p, INVX);
  }

  /** With no sharer listed, nothing below is valid. */
  lemma NothingListed(t: Tree, p: nat)
    requires t.Inv() && p < |t.parent| && t.dir[p].sharers == {}
    ensures forall m: nat | t.InSub(p, m) && m != p :: t.st[m] == I
    ensures Dirty(t, p) <==> t.st[p] == M
  {
    SubInvOfInv(t, p);
    DirtyIsReached(t, p);
    forall m: nat | t.InSub(p, m) && m != p ensures t.st[m] == I {
      NotReached(t, p, m);
    }
  }

  /** What one GETS changes, the request that waits behind c aside. */
  ghost predicate GotOne(t: Tree, a: Tree, c: nat)
    requires t.Shape() && a.Shape() && a.parent == t.parent && 0 < c < |t.parent| && t.pend[c].Some?
  {
    var p := t.parent[c];
    && OutsideKept(t, a, p) && GotLine(t, a, c) && a.st[p] == (if Dirty(t, p) then M else t.st[p])
    && forall m: nat | t.InSub(p, m) && m != p && m != c ::
        a.st[m] == (if t.st[m] == I then I else S) && a.dir[m].sharers == t.dir[m].sharers
  }

  lemma GetsOne(t: Tree, c: nat)
    requires t.Inv() && Answerable(t, c, GETS)
    ensures GotOne(t, Answered(t, c, GETS), c) && Answered(t, c, GETS).dir[c].sharers == t.dir[c].sharers == {}
  {
    RaceCheckRepairs(t, c);
    assert t.ChildOk(c) && t.DirShape(t.parent[c]);
    NoSharersOfInvalid(t, c);
    if t.dir[t.parent[c]].IsEmpty() && HasExclusive(t.st[t.parent[c]]) && !t.pend[c].value.noExcl {
      GotExclusive(t, c);
    } else {
      Downgraded(t, t.parent[c]);
      GotShared(t, Collected(t, t.parent[c], INVX), c);
    }
  }

  lemma Downgraded(t: Tree, p: nat)
    requires t.Inv() && p < |t.parent|
    ensures var v := Collected(t, p, INVX);
      && v.Shape() && v.parent == t.parent && v.st[p] == (if Dirty(t, p) then M else t.st[p])
      && forall m: nat | m < |t.parent| :: DownAt(t, v, p, m)
  {
    hide DownAt;
    DowngradedSelf(t, p);
    forall m: nat | m < |t.parent| ensures DownAt(t, Collected(t, p, INVX), p, m) {
      DowngradedAt(t, p, m);
    }
  }

  /** Without sharers, and with exclusivity to give, c enters in E. */
  lemma GotExclusive(t: Tree, c: nat)
    requires t.Inv() && 0 < c < |t.parent| && t.pend[c].Some? && t.dir[t.parent[c]].sharers == {}
    requires HasExclusive(t.st[t.parent[c]]) && !t.pend[c].value.noExcl
    ensures var a := Cleared(Entered(t, t.parent[c], c, E), c);
      GotOne(t, a, c) && a.dir[c].sharers == t.dir[c].sharers
  {
    var p := t.parent[c];
    NothingListed(t, p);
    SubOfChild(t, p, c, c);
    hide Dirty, Tree.ChildOk, Tree.DirShape, Tree.PendOk, Tree.Inv;
  }

  /** After a downgrade c enters in S. */
  lemma GotShared(t: Tree, v: Tree, c: nat)
    requires t.Shape() && 0 < c < |t.parent| && t.pend[c].Some? && v.Shape() && v.parent == t.parent
    requires forall m: nat | m < |t.parent| :: DownAt(t, v, t.parent[c], m)
    requires v.st[t.parent[c]] == if Dirty(t, t.parent[c]) then M else t.st[t.parent[c]]
    requires !(t.dir[t.parent[c]].sharers == {} && HasExclusive(v.st[t.parent[c]]) && !t.pend[c].value.noExcl)
    ensures var a := Cleared(Entered(v, t.parent[c], c, S), c);
      GotOne(t, a, c) && a.dir[c].sharers == t.dir[c].sharers
  {
    var p := t.parent[c];
    SubOfChild(t, p, c, c);
    var a := Cleared(Entered(v, p, c, S), c);
    assert DownAt(t, v, p, c) && DownAt(t, v, p, p);
    hide Dirty;
    forall m: nat | m < |t.parent| && m != p && m != c
      ensures a.st[m] == v.st[m] && a.dir[m] == v.dir[m] && a.ver[m] == v.ver[m] && DownAt(t, v, p, m)
    {
    }
  }

  lemma NoSharersOfInvalid(t: Tree, c: nat)
    requires t.Inv() && c < |t.parent| && t.st[c] == I
    ensures t.dir[c].sharers == {} && forall m: nat | t.InSub(c, m) :: t.st[m] == I
  {
    SubInvOfInv(t, c);
    assert t.InSub(c, c);
    forall m: nat | t.InSub(c, m) ensures t.st[m] == I && t.dir[m].sharers == {} {
      SubStates(t, c, m);
    }
  }

  // ---- chains of answers

  /** An answer to c and then one to d, the child that c serves, and to those behind it. */
  lemma GetsThen(t: Tree, a: Tree, u: Tree, c: nat, d: nat)
    requires t.Shape() && a.Shape() && u.Shape() && t.parent == a.parent == u.parent
    requires 0 < c < |t.parent| && t.pend[c].Some? && t.IsChild(c, d) && t.serving[c] == Some(d)
    requires a.pend == t.pend[c := None] && a.serving == t.serving[c := None]
    requires GotOne(t, a, c) && a.dir[c].sharers == t.dir[c].sharers && !Dirty(a, c)
    requires GetsAnswered(a, u, d)
    ensures GetsAnswered(t, u, c)
  {
    var p := t.parent[c];
    SameSubs(t, a);
    SameChain(t, a, d);
    hide Dirty;
    SubOfChild(t, p, c, c);
    forall m: nat | t.InSub(c, m) ensures t.InSub(p, m) && m != p {
      SubOfChild(t, p, c, m);
    }
    forall x: nat | Behind(t, d, x) ensures c < x && t.InSub(c, x) && t.InSub(c, t.parent[x]) {
      BehindIsBelow(t, d, x);
      SubOfChild(t, c, d, x);
    }
    assert forall x: nat :: Behind(t, c, x) <==> x == c || Behind(t, d, x);
    forall x: nat | Behind(t, c, x) ensures 0 < x < |t.parent| && t.pend[x].Some? && GotLine(t, u, x) {
      if x != c {
        assert GotLine(a, u, x);
      }
    }
  }

  /** Nobody waits behind c. */
  lemma GetsLast(t: Tree, a: Tree, c: nat)
    requires t.Shape() && a.Shape() && t.parent == a.parent && 0 < c < |t.parent| && t.pend[c].Some?
    requires t.serving[c] == None && a.pend == t.pend[c := None] && a.serving == t.serving[c := None]
    requires GotOne(t, a, c)
    ensures GetsAnswered(t, a, c)
  {
    hide Dirty;
    SubOfChild(t, t.parent[c], c, c);
  }

  /** After the answer to c's GETS, its copy is the only one below it. */
  lemma GetsLeavesClean(t: Tree, c: nat)
    requires t.Inv() && Answerable(t, c, GETS)
    ensures !Dirty(Answered(t, c, GETS), c)
  {
    GetsOne(t, c);
    var a := Answered(t, c, GETS);
    SubInvOfInv(a, c);
    NothingListed(a, c);
  }

  lemma SameKindBehind(t: Tree, c: nat, kind: AccessType)
    requires t.Inv() && Answerable(t, c, kind) && (kind == GETS || kind == GETX)
    ensures t.pend[c].value.kind == kind
    ensures t.serving[c].Some? ==>
      t.IsChild(c, t.serving[c].value) && t.pend[t.serving[c].value].Some? &&
      t.pend[t.serving[c].value].value.kind == kind
  {
    assert t.PendOk(c);
  }

  /** A GETS that need not be sent on gives the line to c and to everybody behind it. */
  lemma {:induction false} GetsChain(t: Tree, c: nat)
    requires t.Inv() && Answerable(t, c, GETS)
    ensures t.serving[c].Some? ==> Awaits(Answered(t, c, GETS), c, t.serving[c].value)
    ensures GetsAnswered(t, PassedDown(Answered(t, c, GETS), c, t.serving[c]), c)
    decreases |t.parent| - c
  {
    SameKindBehind(t, c, GETS);
    StillAwaits(t, c, GETS);
    GetsOne(t, c);
    GetsLeavesClean(t, c);
    var a := Answered(t, c, GETS);
    hide GotOne, GetsAnswered, Dirty, Tree.Inv, Tree.ChildOk, Tree.DirShape, Tree.PendOk;
    if t.serving[c].Some? {
      var d := t.serving[c].value;
      AwaitsAnswerable(a, c, d);
      StillAwaits(a, d, GETS);
      GetsChain(a, d);
      GetsThen(t, a, PassedDown(a, c, t.serving[c]), c, d);
    } else {
      GetsLast(t, a, c);
    }
  }

  // ---- a GETX

  /** What one GETX changes, the request that waits behind c aside. */
  ghost predicate GotxOne(t: Tree, a: Tree, c: nat)
    requires t.Shape() && a.Shape() && a.parent == t.parent && 0 < c < |t.parent|
  {
    var p := t.parent[c];
    && OutsideKept(t, a, p) && a.st[p] == M && a.st[c] == M && a.dir[p].sharers == {c}
    && forall m: nat | t.InSub(p, m) && m != p && m != c :: a.st[m] == if t.InSub(c, m) then t.st[m] else I
  }

  /** What is left at m once c is out of p's directory and the invalidations are sent. */
  ghost predicate OnlyBelow(t: Tree, v: Tree, p: nat, c: nat, m: nat)
    requires t.Shape() && m < |t.parent|
  {
    && v.Shape() && v.parent == t.parent && v.mem == t.mem && v.last == t.last
    && (t.InSub(p, m) && m != p ==> v.st[m] == if t.InSub(c, m) then t.st[m] else I)
    && (!t.InSub(p, m) ==> v.st[m] == t.st[m] && v.dir[m] == t.dir[m] && v.ver[m] == t.ver[m])
  }

  /** Without c in the directory, the invalidations reach what they would have, except c's subtree. */
  lemma OthersReached(t: Tree, c: nat, m: nat)
    requires t.Inv() && 0 < c < |t.parent| && t.InSub(t.parent[c], m) && m != t.parent[c]
    ensures Reached(TakenOut(Modified(t, t.parent[c]), t.parent[c], c), t.parent[c], |t.parent|, m) ==> !t.InSub(c, m)
    ensures Reached(TakenOut(Modified(t, t.parent[c]), t.parent[c], c), t.parent[c], |t.parent|, m) ||
            t.InSub(c, m) || t.st[m] == I
  {
    var p := t.parent[c];
    var x := TakenOut(Modified(t, p), p, c);
    SameSubs(t, x);
    assert t.DirShape(p);
    if t.InSub(c, m) {
      SubOfChild(t, p, c, m);
    } else {
      SubInvOfInv(t, p);
      hide Tree.Inv, Tree.ChildOk, Tree.SubInv;
      ViaChild(t, p, m);
      NotReached(t, p, m);
    }
  }

  lemma OthersGoneAt(t: Tree, c: nat, m: nat)
    requires t.Inv() && 0 < c < |t.parent| && m < |t.parent|
    ensures OnlyBelow(t, HitBelow(TakenOut(Modified(t, t.parent[c]), t.parent[c], c), t.parent[c], INV),
                      t.parent[c], c, m)
  {
    var p := t.parent[c];
    var x := TakenOut(Modified(t, p), p, c);
    SameSub(t, x, p, m);
    if t.InSub(p, m) && m != p {
      OthersReached(t, c, m);
      hide Reached, Tree.Inv, Tree.InSub;
    } else if m != p {
      assert !Reached(x, p, |t.parent|, m);
      hide Reached, Tree.Inv, Tree.InSub;
    } else {
      hide Reached, Tree.Inv;
    }
  }

  lemma GetxOne(t: Tree, c: nat)
    requires t.Inv() && Answerable(t, c, GETX)
    ensures GotxOne(t, Answered(t, c, GETX), c)
  {
    RaceCheckRepairs(t, c);
    var p := t.parent[c];
    ModifiedKeepsInv(t, p);
    TakenOutExcept(Modified(t, p), c);
    var x := TakenOut(Modified(t, p), p, c);
    HitKeepsInv(x, p, INV, c);
    SelfUntouched(x, p, INV);
    forall m: nat | m < |t.parent| ensures OnlyBelow(t, HitBelow(x, p, INV), p, c, m) {
      OthersGoneAt(t, c, m);
    }
    GotExclusivity(t, HitBelow(x, p, INV), c);
  }

  lemma GotExclusivity(t: Tree, v: Tree, c: nat)
    requires t.Shape() && 0 < c < |t.parent| && v.Shape() && v.parent == t.parent
    requires forall m: nat | m < |t.parent| :: OnlyBelow(t, v, t.parent[c], c, m)
    requires v.st[t.parent[c]] == M && v.dir[t.parent[c]].sharers == {}
    ensures GotxOne(t, Cleared(Entered(v, t.parent[c], c, M), c), c)
  {
    var p := t.parent[c];
    SubOfChild(t, p, c, c);
    assert OnlyBelow(t, v, p, c, c);
    forall m: nat | t.InSub(p, m) && m != p && m != c ensures v.st[m] == if t.InSub(c, m) then t.st[m] else I {
      assert OnlyBelow(t, v, p, c, m);
    }
    forall m: nat | m < |t.parent| && !t.InSub(p, m)
      ensures v.st[m] == t.st[m] && v.dir[m] == t.dir[m] && v.ver[m] == t.ver[m]
    {
      assert OnlyBelow(t, v, p, c, m);
    }
    assert t.InSub(p, p);
  }

  /** An answer to c and then one to d, the child that c serves, and to those behind it. */
  lemma GetxThen(t: Tree, a: Tree, u: Tree, c: nat, d: nat)
    requires t.Shape() && a.Shape() && u.Shape() && t.parent == a.parent == u.parent
    requires 0 < c < |t.parent| && t.IsChild(c, d) && t.serving[c] == Some(d)
    requires a.pend == t.pend[c := None] && a.serving == t.serving[c := None]
    requires GotxOne(t, a, c) && GetxAnswered(a, u, d)
    ensures GetxAnswered(t, u, c)
  {
    var p := t.parent[c];
    SameSubs(t, a);
    SameChain(t, a, d);
    OriginIsBelow(t, d);
    SubOfChild(t, p, c, c);
    forall m: nat | t.InSub(c, m) ensures t.InSub(p, m) && m != p {
      SubOfChild(t, p, c, m);
    }
    forall m: nat | t.InSub(Origin(t, c), m) ensures t.InSub(c, m) {
      SubTrans(t, d, Origin(t, d), m);
      SubOfChild(t, c, d, m);
    }
    forall x: nat | Behind(t, d, x) ensures c < x && t.InSub(c, x) {
      BehindIsBelow(t, d, x);
      SubOfChild(t, c, d, x);
    }
    assert forall x: nat :: Behind(t, c, x) <==> x == c || Behind(t, d, x);
  }

  /** Nobody waits behind c. */
  lemma GetxLast(t: Tree, a: Tree, c: nat)
    requires t.Shape() && a.Shape() && t.parent == a.parent && 0 < c < |t.parent|
    requires t.serving[c] == None && a.pend == t.pend[c := None] && a.serving == t.serving[c := None]
    requires GotxOne(t, a, c)
    ensures GetxAnswered(t, a, c)
  {
    SubOfChild(t, t.parent[c], c, c);
  }

  /** A GETX that need not be sent on makes c, and everybody behind it, modified and the only sharer. */
  lemma {:induction false} GetxChain(t: Tree, c: nat)
    requires t.Inv() && Answerable(t, c, GETX)
    ensures t.serving[c].Some? ==> Awaits(Answered(t, c, GETX), c, t.serving[c].value)
    ensures GetxAnswered(t, PassedDown(Answered(t, c, GETX), c, t.serving[c]), c)
    decreases |t.parent| - c
  {
    SameKindBehind(t, c, GETX);
    StillAwaits(t, c, GETX);
    GetxOne(t, c);
    var a := Answered(t, c, GETX);
    hide GotxOne, GetxAnswered, Tree.Inv, Tree.ChildOk, Tree.DirShape, Tree.PendOk;
    if t.serving[c].Some? {
      var d := t.serving[c].value;
      AwaitsAnswerable(a, c, d);
      StillAwaits(a, d, GETX);
      GetxChain(a, d);
      GetxThen(t, a, PassedDown(a, c, t.serving[c]), c, d);
    } else {
      GetxLast(t, a, c);
    }
  }

  // ---- what becomes of a request

  lemma PutOne(t: Tree, c: nat, kind: AccessType)
    requires t.Inv() && Answerable(t, c, kind) && (kind == PUTS || kind == PUTX)
    ensures PutAnswered(t, Answered(t, c, kind), c) && t.st[c] != I
  {
    RaceCheckRepairs(t, c);
    assert t.PendOk(c) && t.ChildOk(c);
  }

  /** A request that a parent takes up is skipped, sent on, or answered, with all that wait behind it, as its kind and
      the states say. */
  lemma ServedIsTakenUp(t: Tree, c: nat)
    requires t.Inv() && 0 < c < |t.parent| && t.pend[c].Some? && t.pend[t.parent[c]] == None
    ensures TakenUp(t, Served(t, c), c)
  {
    RaceCheckRepairs(t, c);
    assert t.PendOk(c);
    hide Tree.ChildOk, Tree.DirShape, GetsAnswered, GetxAnswered, PutAnswered, Answered, PassedDown;
    match CheckForMESIRace(t.pend[c].value.kind, t.st[c], t.pend[c].value.initial)
    case Broken => assert false;
    case Skip =>
    case Go(kind) =>
      if !MustFetch(t, t.parent[c], kind) {
        match kind
        case GETS => GetsChain(t, c);
        case GETX => GetxChain(t, c);
        case PUTS => PutOne(t, c, PUTS); PutEndsHere(t, c, PUTS);
        case PUTX => PutOne(t, c, PUTX); PutEndsHere(t, c, PUTX);
      }
  }

  /** Nobody waits behind a PUT. */
  lemma PutEndsHere(t: Tree, c: nat, kind: AccessType)
    requires t.Inv() && Answerable(t, c, kind) && (kind == PUTS || kind == PUTX)
    ensures t.serving[c] == None && (t.pend[c].value.kind == PUTS || t.pend[c].value.kind == PUTX)
    ensures Served(t, c) == Answered(t, c, kind)
  {
    assert t.PendOk(c);
    hide Answered;
  }

  /** The chain below memory: cache 0, then d, which it serves, and those behind it. */
  lemma MemoryChain(t: Tree, d: nat)
    requires t.Shape() && t.pend[0].Some? && t.IsChild(0, d) && t.serving[0] == Some(d)
    ensures forall x: nat :: Behind(t, 0, x) <==> x == 0 || Behind(t, d, x)
    ensures forall x: nat :: Behind(MemoryAnswered(t), d, x) <==> Behind(t, d, x)
    ensures Origin(MemoryAnswered(t), d) == Origin(t, 0) == Origin(t, d)
    ensures forall x: nat | Behind(t, d, x) :: 0 < x
  {
    SameChain(t, MemoryAnswered(t), d);
    forall x: nat | Behind(t, d, x) ensures 0 < x {
      BehindIsBelow(t, d, x);
    }
  }

  /** Memory gives the line to cache 0, which gives it to d, the child it serves, and so on. */
  lemma MemoryThenGets(t: Tree, u: Tree, d: nat)
    requires t.Inv() && t.pend[0].Some? && t.IsChild(0, d) && t.serving[0] == Some(d) && u.Shape()
    requires u.parent == t.parent && t.pend[0].value.kind == GETS && GetsAnswered(MemoryAnswered(t), u, d)
    ensures TakenUpByMemory(t, u)
  {
    var a := MemoryAnswered(t);
    MemoryLeavesClean(t);
    MemoryChain(t, d);
    SameSubs(t, a);
    hide Tree.Inv, Tree.ChildOk, Tree.DirShape, Tree.PendOk, Dirty, Behind, Origin;
    forall m: nat | m < |t.parent| ensures t.InSub(0, m) {
      RootAbove(t, m);
    }
    forall x: nat | Behind(t, 0, x) && x != 0 ensures x < |t.parent| && t.pend[x].Some? && GotLine(t, u, x) {
      assert GotLine(a, u, x);
    }
  }

  lemma MemoryThenGetx(t: Tree, u: Tree, d: nat)
    requires t.Shape() && t.pend[0].Some? && t.IsChild(0, d) && t.serving[0] == Some(d) && u.Shape()
    requires u.parent == t.parent && t.pend[0].value.kind == GETX && GetxAnswered(MemoryAnswered(t), u, d)
    ensures TakenUpByMemory(t, u)
  {
    var a := MemoryAnswered(t);
    MemoryChain(t, d);
    SameSubs(t, a);
    hide Behind, Origin;
    forall m: nat | m < |t.parent| ensures t.InSub(0, m) {
      RootAbove(t, m);
    }
  }

  /** When cache 0 has asked for the line, nothing is valid below. */
  lemma MemoryLeavesClean(t: Tree)
    requires t.Inv() && t.pend[0].Some? && t.pend[0].value.kind == GETS
    ensures !Dirty(MemoryAnswered(t), 0) && forall m: nat | m < |t.parent| :: t.st[m] == I
  {
    assert t.PendOk(0);
    NoSharersOfInvalid(t, 0);
    forall m: nat | m < |t.parent| ensures t.InSub(0, m) && t.st[m] == I {
      RootAbove(t, m);
    }
  }

  lemma MemoryLast(t: Tree)
    requires t.Inv() && t.pend[0].Some? && t.serving[0] == None
    ensures TakenUpByMemory(t, MemoryAnswered(t))
  {
    assert t.PendOk(0);
    if t.pend[0].value.kind == GETS {
      MemoryLeavesClean(t);
    }
    hide Tree.Inv, Tree.ChildOk, Tree.DirShape, Dirty;
    forall m: nat | m < |t.parent| ensures t.InSub(0, m) {
      RootAbove(t, m);
    }
  }

  /** What memory answers goes to cache 0 and to all that wait behind it; a PUT reaches memory. */
  lemma FromMemoryIsTakenUp(t: Tree)
    requires t.Inv() && t.pend[0].Some?
    ensures TakenUpByMemory(t, FromMemory(t))
  {
    FromMemoryKeepsInv(t);
    assert t.PendOk(0);
    hide Tree.Inv, Tree.ChildOk, Tree.DirShape, GetsAnswered, GetxAnswered, TakenUpByMemory, Answered;
    if t.serving[0].Some? {
      var a, d, kind := MemoryAnswered(t), t.serving[0].value, t.pend[0].value.kind;
      AwaitsAnswerable(a, 0, d);
      StillAwaits(a, d, kind);
      if kind == GETS {
        GetsChain(a, d);
        MemoryThenGets(t, FromMemory(t), d);
      } else {
        GetxChain(a, d);
        MemoryThenGetx(t, FromMemory(t), d);
      }
    } else {
      MemoryLast(t);
    }
  }

  // ---- evictions

  /** Everything below n is invalid and delisted, and n asks to be put back: with a PUTX exactly if n or a copy below it
      was modified, with a PUTS if it was otherwise valid. */
  ghost predicate Evicted(t: Tree, u: Tree, n: nat)
    requires t.Shape() && u.Shape() && u.parent == t.parent && n < |t.parent|
  {
    && (forall m: nat | t.InSub(n, m) && m != n :: u.st[m] == I && u.dir[m].sharers == {}) && u.dir[n].sharers == {}
    && u.st[n] == (if Dirty(t, n) then M else t.st[n])
    && u.pend[n] == (if Dirty(t, n) then Some(Request(PUTX, M, false))
                     else if t.st[n] != I then Some(Request(PUTS, t.st[n], false)) else None)
    && (forall m: nat | m < |t.parent| && m != n :: u.pend[m] == t.pend[m])
    && u.serving == t.serving && OutsideKept(t, u, n)
  }

  /** What the invalidations of an eviction leave at m. */
  ghost predicate GoneAt(t: Tree, v: Tree, n: nat, m: nat)
    requires t.Shape() && m < |t.parent|
  {
    && v.Shape() && v.parent == t.parent
    && if t.InSub(n, m) then v.st[m] == I && v.dir[m].sharers == {}
       else v.st[m] == t.st[m] && v.dir[m] == t.dir[m] && v.ver[m] == t.ver[m]
  }

  lemma EvictedAt(t: Tree, n: nat, m: nat)
    requires t.Inv() && n < |t.parent| && m < |t.parent| && m != n
    ensures GoneAt(t, Collected(t, n, INV), n, m)
  {
    SubInvOfInv(t, n);
    if t.InSub(n, m) {
      NotReached(t, n, m);
    }
    hide Tree.Inv, Tree.SubInv;
  }

  lemma EvictedSelf(t: Tree, n: nat)
    requires t.Inv() && n < |t.parent|
    ensures var v := Collected(t, n, INV);
      v.Shape() && v.st[n] == (if Dirty(t, n) then M else t.st[n]) && v.dir[n].sharers == {}
    ensures Dirty(t, n) ==> t.st[n] != I
  {
    SubInvOfInv(t, n);
    DirtyIsReached(t, n);
    SelfUntouched(t, n, INV);
    if Dirty(t, n) {
      var m: nat :| t.InSub(n, m) && t.st[m] == M;
      Inclusion(t, n, m);
    }
    hide Tree.Inv, Tree.SubInv, DirtyReached;
  }

  /** An eviction leaves nothing below, and asks to put back what was there. */
  lemma EvictingIsEvicted(t: Tree, n: nat)
    requires t.Inv() && n < |t.parent| && t.pend[n] == None
    ensures Evicting(t, n).Shape() && Evicted(t, Evicting(t, n), n)
  {
    EvictedSelf(t, n);
    forall m: nat | m < |t.parent| && m != n ensures GoneAt(t, Collected(t, n, INV), n, m) {
      EvictedAt(t, n, m);
    }
    EvictionAsks(t, Collected(t, n, INV), n);
    hide Tree.Inv, Tree.ChildOk, Tree.DirShape, Tree.PendOk, Reached, Dirty, DirtyReached, Evicted, GoneAt, Issued;
  }

  lemma EvictionAsks(t: Tree, v: Tree, n: nat)
    requires t.Shape() && n < |t.parent| && t.pend[n] == None && v.Shape() && v.parent == t.parent
    requires v.pend == t.pend && v.serving == t.serving && v.mem == t.mem && v.last == t.last
    requires v.st[n] == (if Dirty(t, n) then M else t.st[n]) && v.dir[n].sharers == {}
    requires forall m: nat | m < |t.parent| && m != n :: GoneAt(t, v, n, m)
    ensures Evicted(t, if v.st[n] == I then v else Issued(v, n, if v.st[n] == M then PUTX else PUTS, false), n)
  {
    assert t.InSub(n, n);
    assert t.st[n] == M ==> Dirty(t, n);
    hide Dirty;
    forall m: nat | m < |t.parent| && m != n
      ensures if t.InSub(n, m) then v.st[m] == I && v.dir[m].sharers == {}
              else v.st[m] == t.st[m] && v.dir[m] == t.dir[m] && v.ver[m] == t.ver[m]
    {
      assert GoneAt(t, v, n, m);
    }
  }

  predicate IsPut(r: Option<Request>) {
    r.Some? && (r.value.kind == PUTS || r.value.kind == PUTX)
  }

  /** Everybody who waits behind c asked for the same as c. */
  lemma {:induction false} BehindKind(t: Tree, c: nat, x: nat)
    requires t.Inv() && Behind(t, c, x) && t.pend[c].Some?
    ensures x < |t.parent| && t.pend[x].Some? && t.pend[x].value.kind == t.pend[c].value.kind
    ensures x != c ==> !IsPut(t.pend[c])
    decreases |t.parent| - c
  {
    assert t.PendOk(c);
    if x != c {
      BehindKind(t, t.serving[c].value, x);
    }
  }

  /** The request of an evicted line stays pending, whatever else happens, until the parent or memory takes it up; then
      the line is gone, and nothing is pending. */
  lemma EvictionCompletes(t: Tree, e: Event, c: nat)
    requires t.Inv() && Enabled(t, e) && c < |t.parent| && IsPut(t.pend[c])
    ensures var u := After(t, e);
      && |u.parent| == |u.pend| == |u.st| == |t.parent|
      && if e == (if c == 0 then ServeFromMemory else Serve(c)) then u.st[c] == I && u.pend[c] == None
         else u.pend[c] == t.pend[c]
  {
    match e
    case Issue(_, _, _) =>
    case Write(_) =>
    case Evict(n) => EvictingIsEvicted(t, n);
    case Serve(x) =>
      ServedIsTakenUp(t, x);
      TakenUpPuts(t, Served(t, x), x, c);
    case ServeFromMemory =>
      FromMemoryIsTakenUp(t);
      if Behind(t, 0, c) {
        BehindKind(t, 0, c);
      }
  }

  lemma TakenUpPuts(t: Tree, u: Tree, x: nat, c: nat)
    requires t.Inv() && u.Shape() && u.parent == t.parent && 0 < x < |t.parent| && t.pend[x].Some?
    requires TakenUp(t, u, x) && t.pend[t.parent[x]] == None && c < |t.parent| && IsPut(t.pend[c])
    ensures if c == x then u.st[c] == I && u.pend[c] == None else u.pend[c] == t.pend[c]
  {
    assert t.PendOk(x);
    if Behind(t, x, c) {
      BehindKind(t, x, c);
    }
  }
}
