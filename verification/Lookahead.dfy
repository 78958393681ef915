/** The lookahead cache partitioner of src/lookahead.cpp. Miss counts are 64-bit unsigned and wrap;
    marginal utilities are exact quotients. */
module Lookahead {

  type U64 = x: nat | x < 0x1_0000_0000_0000_0000

  function Wrap(x: int): U64 {
    x % 0x1_0000_0000_0000_0000
  }

  /** `misses(p, a)`: the misses that the monitor predicts for partition p with a buckets. */
  type Monitor = (nat, nat) -> U64

  /** Average misses saved per bucket when partition p grows from a to a + i. */
  function Mu(misses: Monitor, p: nat, a: nat, i: nat): real
    requires i > 0
  {
    Wrap(misses(p, a) - misses(p, a + i)) as real / i as real
  }

  /** Misses saved by one more bucket. */
  function Gain(misses: Monitor, p: nat, a: nat): int {
    misses(p, a) - misses(p, a + 1)
  }

  function Sum(s: seq<nat>): nat {
    if s == [] then 0 else Sum(s[..|s| - 1]) + s[|s| - 1]
  }

  function TotalMisses(misses: Monitor, s: seq<nat>): nat {
    if s == [] then 0 else TotalMisses(misses, s[..|s| - 1]) + misses(|s| - 1, s[|s| - 1])
  }

  function Zeros(n: nat): (s: seq<nat>)
    ensures |s| == n && forall i | 0 <= i < n :: s[i] == 0
  {
    seq(n, _ => 0)
  }

  /** Misses saved over having no cache. */
  function TotalUtility(misses: Monitor, s: seq<nat>): int {
    TotalMisses(misses, Zeros(|s|)) - TotalMisses(misses, s)
  }

  /** Up to `top` buckets, the miss curve of p is nonincreasing and convex. */
  ghost predicate Convex(misses: Monitor, p: nat, top: nat) {
    && (forall x: nat :: x < top ==> Gain(misses, p, x) >= 0)
    && (forall x: nat, y: nat :: x <= y < top ==> Gain(misses, p, x) >= Gain(misses, p, y))
  }

  predicate Allowed(forbidden: seq<bool>, p: nat) {
    forbidden == [] || (p < |forbidden| && !forbidden[p])
  }

  /** An allocation that respects the minimum and the forbidden partitions. */
  predicate Legal(a: seq<nat>, minAlloc: nat, forbidden: seq<bool>) {
    forall p | 0 <= p < |a| :: a[p] >= minAlloc && (!Allowed(forbidden, p) ==> a[p] == minAlloc)
  }

  lemma {:induction false} SumUpdate(s: seq<nat>, i: nat, v: nat)
    requires i < |s|
    ensures Sum(s[i := v]) == Sum(s) - s[i] + v
  {
    var n := |s| - 1;
    if i == n {
      assert s[i := v][..n] == s[..n];
    } else {
      assert s[i := v][..n] == s[..n][i := v];
      SumUpdate(s[..n], i, v);
    }
  }

  lemma {:induction false} SumConst(s: seq<nat>, c: nat)
    requires forall i | 0 <= i < |s| :: s[i] == c
    ensures Sum(s) == |s| * c
  {
    if s != [] { SumConst(s[..|s| - 1], c); }
  }

  lemma {:induction false} SumAbove(s: seq<nat>, c: nat, i: nat)
    requires forall i | 0 <= i < |s| :: s[i] >= c
    requires i < |s|
    ensures Sum(s) >= |s| * c + (s[i] - c)
  {
    SumUpdate(s, i, c);
    SumAtLeast(s[i := c], c);
  }

  lemma {:induction false} SumAtLeast(s: seq<nat>, c: nat)
    requires forall i | 0 <= i < |s| :: s[i] >= c
    ensures Sum(s) >= |s| * c
  {
    if s != [] { SumAtLeast(s[..|s| - 1], c); }
  }

  /** The first step of largest average gain. */
  method GetMaxMarginalUtility(misses: Monitor, part: nat, partAlloc: nat, balance: nat)
    returns (maxMu: real, maxMuAlloc: nat)
    ensures balance == 0 ==> maxMu == -1.0 && maxMuAlloc == 0
    ensures balance > 0 ==> 0 < maxMuAlloc <= balance && maxMu == Mu(misses, part, partAlloc, maxMuAlloc)
    ensures forall i: nat | 0 < i <= balance :: Mu(misses, part, partAlloc, i) <= maxMu
    ensures forall i: nat | 0 < i < maxMuAlloc :: Mu(misses, part, partAlloc, i) < maxMu
  {
    maxMu := -1.0;
    maxMuAlloc := 0;
    for i := 1 to balance + 1
      invariant i == 1 ==> maxMu == -1.0 && maxMuAlloc == 0
      invariant i > 1 ==> 0 < maxMuAlloc < i && maxMu == Mu(misses, part, partAlloc, maxMuAlloc)
      invariant forall j: nat | 0 < j < i :: Mu(misses, part, partAlloc, j) <= maxMu
      invariant forall j: nat | 0 < j < maxMuAlloc :: Mu(misses, part, partAlloc, j) < maxMu
    {
      var extraHits := Wrap(misses(part, partAlloc) - misses(part, partAlloc + i));
      var mu := extraHits as real / i as real;
      assert mu == Mu(misses, part, partAlloc, i);
      hide Mu;
      if mu > maxMu {
        maxMu := mu;
        maxMuAlloc := i;
      }
    }
  }

  /** On a convex curve no step beats the single bucket. */
  lemma {:induction false} SavedAtMost(misses: Monitor, p: nat, a: nat, i: nat, top: nat)
    requires Convex(misses, p, top) && a + i <= top && i > 0
    ensures 0 <= misses(p, a) - misses(p, a + i) <= i * Gain(misses, p, a)
  {
    if i == 1 {
    } else {
      SavedAtMost(misses, p, a, i - 1, top);
      assert Gain(misses, p, a) >= Gain(misses, p, a + i - 1) >= 0;
      var g := Gain(misses, p, a);
      assert (i - 1) * g + g == i * g;
    }
  }

  lemma QuotientAtMost(x: int, i: nat, g: int)
    requires i > 0 && x <= i * g
    ensures x as real / i as real <= g as real
  {
    var q := x as real / i as real;
    assert q * (i as real) == x as real;
    assert (g as real) * (i as real) == (i * g) as real;
    CancelFactor(q, g as real, i as real);
  }

  lemma CancelFactor(x: real, y: real, f: real)
    requires f > 0.0 && x * f <= y * f
    ensures x <= y
  {
    assert (x - y) * f <= 0.0;
  }

  lemma ConvexStep(misses: Monitor, p: nat, a: nat, i: nat, top: nat)
    requires Convex(misses, p, top) && a + i <= top && i > 0
    ensures Mu(misses, p, a, i) <= Mu(misses, p, a, 1) == Gain(misses, p, a) as real
  {
    SavedAtMost(misses, p, a, i, top);
    QuotientAtMost(misses(p, a) - misses(p, a + i), i, Gain(misses, p, a));
  }

  /** A price at which the allocation a is settled: every bucket handed out gained at least it,
      and no further bucket would gain more. */
  ghost predicate Settled(misses: Monitor, a: seq<nat>, minAlloc: nat, forbidden: seq<bool>, top: nat, price: int)
  {
    forall p: nat | p < |a| && Allowed(forbidden, p) ::
      && (a[p] > minAlloc ==> Gain(misses, p, a[p] - 1) >= price)
      && (a[p] < top ==> Gain(misses, p, a[p]) <= price)
  }

  /** Of the steps open to the allowed partitions, k more buckets for p has the largest average gain;
      p is the first partition, and k its smallest step, to reach it. */
  ghost predicate Picked(misses: Monitor, a: seq<nat>, forbidden: seq<bool>, balance: nat, p: nat, k: nat)
  {
    && p < |a| && Allowed(forbidden, p) && 0 < k <= balance
    && (forall q: nat, i: nat | q < |a| && Allowed(forbidden, q) && 0 < i <= balance ::
          Mu(misses, q, a[q], i) <= Mu(misses, p, a[p], k))
    && (forall q: nat, i: nat | q < p && Allowed(forbidden, q) && 0 < i <= balance ::
          Mu(misses, q, a[q], i) < Mu(misses, p, a[p], k))
    && (forall i: nat | 0 < i < k :: Mu(misses, p, a[p], i) < Mu(misses, p, a[p], k))
  }

  /** The rounds that are left lead from allocation a to r: each picks a partition and a step, until the balance is
      spent. */
  ghost predicate Rounds(misses: Monitor, forbidden: seq<bool>, a: seq<nat>, balance: nat, r: seq<nat>)
    decreases balance
  {
    if balance == 0 then r == a
    else
      exists p: nat, k: nat | Picked(misses, a, forbidden, balance, p, k) ::
        Rounds(misses, forbidden, a[p := a[p] + k], balance - k, r)
  }

  lemma PickedOnce(misses: Monitor, a: seq<nat>, forbidden: seq<bool>, balance: nat, p: nat, k: nat, q: nat, l: nat)
    requires Picked(misses, a, forbidden, balance, p, k) && Picked(misses, a, forbidden, balance, q, l)
    ensures p == q && k == l
  {
    assert Mu(misses, q, a[q], l) <= Mu(misses, p, a[p], k);
    assert Mu(misses, p, a[p], k) <= Mu(misses, q, a[q], l);
  }

  lemma NextRound(misses: Monitor, forbidden: seq<bool>, a: seq<nat>, balance: nat, r: seq<nat>) returns (p: nat,
                  k: nat)
    requires balance > 0 && Rounds(misses, forbidden, a, balance, r)
    ensures p < |a| && 0 < k <= balance && Picked(misses, a, forbidden, balance, p, k)
    ensures Rounds(misses, forbidden, a[p := a[p] + k], balance - k, r)
  {
    p, k :| Picked(misses, a, forbidden, balance, p, k) && Rounds(misses, forbidden, a[p := a[p] + k], balance - k, r);
  }

  lemma NoRound(misses: Monitor, forbidden: seq<bool>, a: seq<nat>, r: seq<nat>)
    requires Rounds(misses, forbidden, a, 0, r)
    ensures r == a
  {
  }

  /** The rounds have one outcome. */
  lemma {:induction false} OneOutcome(misses: Monitor, forbidden: seq<bool>, a: seq<nat>, balance: nat, r: seq<nat>,
                                      s: seq<nat>)
    requires Rounds(misses, forbidden, a, balance, r) && Rounds(misses, forbidden, a, balance, s)
    ensures r == s
    decreases balance
  {
    hide Picked, Rounds;
    if balance == 0 {
      NoRound(misses, forbidden, a, r);
      NoRound(misses, forbidden, a, s);
    } else {
      var p: nat, k: nat := NextRound(misses, forbidden, a, balance, r);
      var q: nat, l: nat := NextRound(misses, forbidden, a, balance, s);
      PickedOnce(misses, a, forbidden, balance, p, k, q, l);
      OneOutcome(misses, forbidden, a[p := a[p] + k], balance - k, r, s);
    }
  }

  /** With this much left, a is on the way from a0 to wherever the rounds lead. */
  ghost predicate Continue(misses: Monitor, forbidden: seq<bool>, a0: seq<nat>, balance0: nat, a: seq<nat>,
                           balance: nat) {
    forall r | Rounds(misses, forbidden, a, balance, r) :: Rounds(misses, forbidden, a0, balance0, r)
  }

  lemma MinimaLegal(misses: Monitor, a: seq<nat>, minAlloc: nat, forbidden: seq<bool>, balance: nat)
    requires forall i | 0 <= i < |a| :: a[i] == minAlloc
    ensures Legal(a, minAlloc, forbidden) && Continue(misses, forbidden, a, balance, a, balance)
  {
  }

  lemma RoundStep(misses: Monitor, a: seq<nat>, minAlloc: nat, forbidden: seq<bool>, balance: nat, p: nat, k: nat,
                  a0: seq<nat>, balance0: nat)
    requires Legal(a, minAlloc, forbidden) && Picked(misses, a, forbidden, balance, p, k)
    requires Continue(misses, forbidden, a0, balance0, a, balance)
    ensures p < |a| && 0 < k <= balance && Legal(a[p := a[p] + k], minAlloc, forbidden)
    ensures Sum(a[p := a[p] + k]) == Sum(a) + k
    ensures Continue(misses, forbidden, a0, balance0, a[p := a[p] + k], balance - k)
  {
    SumUpdate(a, p, a[p] + k);
    var b := a[p := a[p] + k];
    forall r | Rounds(misses, forbidden, b, balance - k, r) ensures Rounds(misses, forbidden, a, balance, r) {
    }
  }

  lemma RoundsEnd(misses: Monitor, forbidden: seq<bool>, a0: seq<nat>, balance0: nat, a: seq<nat>)
    requires Continue(misses, forbidden, a0, balance0, a, 0)
    ensures Rounds(misses, forbidden, a0, balance0, a)
  {
    assert Rounds(misses, forbidden, a, 0, a);
  }

  /** One round of the main loop. */
  method PickPartition(allocs: array<nat>, balance: nat, forbidden: seq<bool>, misses: Monitor)
    returns (maxMuPart: nat, maxMuAlloc: nat)
    requires balance > 0
    requires forbidden == [] || |forbidden| == allocs.Length
    requires exists p: nat :: p < allocs.Length && Allowed(forbidden, p)
    ensures maxMuPart < allocs.Length && 0 < maxMuAlloc <= balance
    ensures Picked(misses, allocs[..], forbidden, balance, maxMuPart, maxMuAlloc)
  {
    var n := allocs.Length;
    var maxMu := -1.0;
    maxMuPart := n;  // illegal
    maxMuAlloc := 0;
    for i := 0 to n
      invariant maxMuPart == n ==> maxMu == -1.0 && forall j | 0 <= j < i :: !Allowed(forbidden, j)
      invariant maxMuPart < n ==>
        maxMuPart < i && Allowed(forbidden, maxMuPart) && 0 < maxMuAlloc <= balance &&
        maxMu == Mu(misses, maxMuPart, allocs[maxMuPart], maxMuAlloc) &&
        forall k: nat | 0 < k < maxMuAlloc :: Mu(misses, maxMuPart, allocs[maxMuPart], k) < maxMu
      invariant maxMuPart <= n
      invariant forall j: nat, k: nat | j < i && Allowed(forbidden, j) && 0 < k <= balance ::
        Mu(misses, j, allocs[j], k) <= maxMu
      invariant forall j: nat, k: nat | j < i && j < maxMuPart && Allowed(forbidden, j) && 0 < k <= balance ::
        Mu(misses, j, allocs[j], k) < maxMu
    {
      if forbidden != [] && forbidden[i] { continue; }
      var mu, muAlloc := GetMaxMarginalUtility(misses, i, allocs[i], balance);
      if mu > maxMu {
        maxMu := mu;
        maxMuPart := i;
        maxMuAlloc := muAlloc;
      }
    }
  }

  ghost predicate AllConvex(misses: Monitor, n: nat, top: nat) {
    forall p: nat | p < n :: Convex(misses, p, top)
  }

  function Minima(n: nat, minAlloc: nat): (a: seq<nat>)
    ensures |a| == n && forall i | 0 <= i < n :: a[i] == minAlloc
  {
    seq(n, _ => minAlloc)
  }

  /** Every partition gets the minimum, but the balance is charged for it once. */
  function HandedOut(n: nat, buckets: nat, minAlloc: nat): nat
    requires minAlloc <= buckets
  {
    n * minAlloc + (buckets - minAlloc)
  }

  lemma MinimaSum(a: seq<nat>, buckets: nat, minAlloc: nat)
    requires minAlloc <= buckets && forall i | 0 <= i < |a| :: a[i] == minAlloc
    ensures Sum(a) + (buckets - minAlloc) == HandedOut(|a|, buckets, minAlloc)
  {
    SumConst(a, minAlloc);
  }

  /** No legal allocation of the same size saves more misses. */
  ghost predicate Best(misses: Monitor, a: seq<nat>, minAlloc: nat, forbidden: seq<bool>) {
    forall b: seq<nat> | |b| == |a| && Legal(b, minAlloc, forbidden) && Sum(b) == Sum(a) ::
      TotalUtility(misses, b) <= TotalUtility(misses, a)
  }

  method ComputeBestPartitioning(buckets: nat, minAlloc: nat, forbidden: seq<bool>, allocs: array<nat>, misses: Monitor)
    requires minAlloc <= buckets
    requires forbidden == [] || |forbidden| == allocs.Length
    requires minAlloc < buckets ==> exists p: nat :: p < allocs.Length && Allowed(forbidden, p)
    modifies allocs
    ensures Legal(allocs[..], minAlloc, forbidden)
    ensures Rounds(misses, forbidden, Minima(allocs.Length, minAlloc), buckets - minAlloc, allocs[..])
    ensures Sum(allocs[..]) == HandedOut(allocs.Length, buckets, minAlloc)
    ensures Sum(allocs[..]) == buckets <==> allocs.Length == 1 || minAlloc == 0
    ensures AllConvex(misses, allocs.Length, buckets) ==> Best(misses, allocs[..], minAlloc, forbidden)
  {
    hide Settled, Best, Sum, AllConvex, Picked, HandedOut, Legal, Rounds, Continue;
    var n := allocs.Length;
    var balance := buckets;
    for i := 0 to n
      invariant forall j | 0 <= j < i :: allocs[j] == minAlloc
    {
      allocs[i] := minAlloc;
    }
    ghost var start := Minima(n, minAlloc);
    assert allocs[..] == start;
    MinimaSum(start, buckets, minAlloc);
    MinimaLegal(misses, start, minAlloc, forbidden, buckets - minAlloc);
    SettledAtFirst(misses, allocs[..], minAlloc, forbidden, buckets);
    balance := balance - minAlloc;
    ghost var price: int := 0x1_0000_0000_0000_0000;
    ghost var convex := AllConvex(misses, n, buckets);
    ghost var total := HandedOut(n, buckets, minAlloc);
    while balance > 0
      invariant 0 <= balance <= buckets - minAlloc
      invariant Legal(allocs[..], minAlloc, forbidden)
      invariant Sum(allocs[..]) + balance == total
      invariant convex ==> Settled(misses, allocs[..], minAlloc, forbidden, buckets, price)
      invariant Continue(misses, forbidden, start, buckets - minAlloc, allocs[..], balance)
    {
      ghost var before := allocs[..];
      var maxMuPart, maxMuAlloc := PickPartition(allocs, balance, forbidden, misses);
      if convex {
        RoundKeepsSettled(misses, before, minAlloc, forbidden, buckets, price, balance, maxMuPart, maxMuAlloc);
        price := Gain(misses, maxMuPart, before[maxMuPart]);
      }
      RoundStep(misses, before, minAlloc, forbidden, balance, maxMuPart, maxMuAlloc, start, buckets - minAlloc);
      allocs[maxMuPart] := allocs[maxMuPart] + maxMuAlloc;
      balance := balance - maxMuAlloc;
      assert allocs[..] == before[maxMuPart := before[maxMuPart] + maxMuAlloc];
    }
    RoundsEnd(misses, forbidden, start, buckets - minAlloc, allocs[..]);
    SpendsTheBudget(allocs[..], buckets, minAlloc);
    if convex {
      SettledIsBest(misses, allocs[..], minAlloc, forbidden, buckets, price);
    }
  }

  /** With only the minimum handed out, any price above all gains will do. */
  lemma SettledAtFirst(misses: Monitor, a: seq<nat>, minAlloc: nat, forbidden: seq<bool>, top: nat)
    requires forall i | 0 <= i < |a| :: a[i] == minAlloc
    ensures Settled(misses, a, minAlloc, forbidden, top, 0x1_0000_0000_0000_0000)
  {
  }

  lemma RoundKeepsSettled(misses: Monitor, a: seq<nat>, minAlloc: nat, forbidden: seq<bool>, top: nat, price: int,
                          balance: nat, p: nat, k: nat)
    requires AllConvex(misses, |a|, top) && Legal(a, minAlloc, forbidden)
    requires Settled(misses, a, minAlloc, forbidden, top, price)
    requires minAlloc <= top && Sum(a) + balance == HandedOut(|a|, top, minAlloc)
    requires Picked(misses, a, forbidden, balance, p, k)
    ensures Settled(misses, a[p := a[p] + k], minAlloc, forbidden, top, Gain(misses, p, a[p]))
  {
    WithinBudget(a, minAlloc, top, balance);
    GreedyChoice(misses, a, minAlloc, forbidden, top, balance, p, k);
    GreedyStep(misses, a, minAlloc, forbidden, top, price, p);
  }

  lemma SettledIsBest(misses: Monitor, a: seq<nat>, minAlloc: nat, forbidden: seq<bool>, top: nat, price: int)
    requires minAlloc <= top && AllConvex(misses, |a|, top)
    requires Legal(a, minAlloc, forbidden) && Settled(misses, a, minAlloc, forbidden, top, price)
    requires Sum(a) == HandedOut(|a|, top, minAlloc)
    ensures Best(misses, a, minAlloc, forbidden)
  {
    forall b: seq<nat> | |b| == |a| && Legal(b, minAlloc, forbidden) && Sum(b) == Sum(a)
      ensures TotalUtility(misses, b) <= TotalUtility(misses, a)
    {
      WithinBudget(a, minAlloc, top, 0);
      WithinBudget(b, minAlloc, top, 0);
      SettledIsOptimal(misses, a, b, minAlloc, forbidden, top, price);
    }
  }

  /** On convex curves the greedy choice is one bucket for the partition that gains most from it. */
  lemma GreedyChoice(misses: Monitor, a: seq<nat>, minAlloc: nat, forbidden: seq<bool>, top: nat,
                     balance: nat, p: nat, k: nat)
    requires forall q: nat | q < |a| :: Convex(misses, q, top) && a[q] + balance <= top
    requires Picked(misses, a, forbidden, balance, p, k)
    ensures k == 1
    ensures forall q: nat | q < |a| && Allowed(forbidden, q) :: Gain(misses, q, a[q]) <= Gain(misses, p, a[p])
  {
    ConvexStep(misses, p, a[p], k, top);
    assert Mu(misses, p, a[p], k) <= Mu(misses, p, a[p], 1);
    forall q: nat | q < |a| && Allowed(forbidden, q) ensures Gain(misses, q, a[q]) <= Gain(misses, p, a[p]) {
      ConvexStep(misses, q, a[q], 1, top);
      assert Mu(misses, q, a[q], 1) <= Mu(misses, p, a[p], k);
    }
  }

  /** Giving that bucket leaves the allocation settled at its gain. */
  lemma GreedyStep(misses: Monitor, a: seq<nat>, minAlloc: nat, forbidden: seq<bool>, top: nat, price: int, p: nat)
    requires forall q: nat | q < |a| :: Convex(misses, q, top) && a[q] < top
    requires Legal(a, minAlloc, forbidden) && Settled(misses, a, minAlloc, forbidden, top, price)
    requires p < |a| && Allowed(forbidden, p)
    requires forall q: nat | q < |a| && Allowed(forbidden, q) :: Gain(misses, q, a[q]) <= Gain(misses, p, a[p])
    ensures Settled(misses, a[p := a[p] + 1], minAlloc, forbidden, top, Gain(misses, p, a[p]))
  {
    var a' := a[p := a[p] + 1];
    var g := Gain(misses, p, a[p]);
    assert g <= price;
    forall q: nat | q < |a'| && Allowed(forbidden, q)
      ensures a'[q] > minAlloc ==> Gain(misses, q, a'[q] - 1) >= g
      ensures a'[q] < top ==> Gain(misses, q, a'[q]) <= g
    {
      if q == p && a'[p] < top {
        assert Gain(misses, p, a[p]) >= Gain(misses, p, a'[p]);
      }
    }
  }

  /** Without convexity the greedy choice can lose. Two buckets are to be handed out; one saves partition 0 five misses,
      and only both together save partition 1 nine. The rounds give both to partition 0 and save five. */
  lemma NonConvexMayLose() returns (misses: Monitor)
    ensures !AllConvex(misses, 2, 2)
    ensures forall r :: Rounds(misses, [], [0, 0], 2, r) <==> r == [2, 0]
    ensures TotalUtility(misses, [2, 0]) == 5 && TotalUtility(misses, [0, 2]) == 9
  {
    hide Rounds, Mu;
    misses := (p: nat, a: nat) => if p == 0 then (if a == 0 then 10 else 5) else if a < 2 then 10 else 1;
    assert Gain(misses, 1, 0) == 0 && Gain(misses, 1, 1) == 9;
    assert !Convex(misses, 1, 2);
    TwoRounds(misses);
    TwoParts(misses, 0, 0);
    TwoParts(misses, 0, 2);
    TwoParts(misses, 2, 0);
    assert Zeros(2) == [0, 0];
  }

  lemma TwoRounds(misses: Monitor)
    requires misses(0, 0) == 10 && misses(0, 1) == misses(0, 2) == 5
    requires misses(1, 0) == misses(1, 1) == 10 && misses(1, 2) == 1
    ensures forall r :: Rounds(misses, [], [0, 0], 2, r) <==> r == [2, 0]
  {
    FirstRound(misses);
    SecondRound(misses);
    hide Picked, Mu;
    assert [0, 0][0 := 0 + 1] == [1, 0] && [1, 0][0 := 1 + 1] == [2, 0];
    assert Rounds(misses, [], [2, 0], 0, [2, 0]);
    hide Rounds;
    RoundFirst(misses, [], [1, 0], 1, 0, 1, [2, 0]);
    RoundFirst(misses, [], [0, 0], 2, 0, 1, [2, 0]);
    forall r | Rounds(misses, [], [0, 0], 2, r) ensures r == [2, 0] {
      OneOutcome(misses, [], [0, 0], 2, r, [2, 0]);
    }
  }

  lemma RoundFirst(misses: Monitor, forbidden: seq<bool>, a: seq<nat>, balance: nat, p: nat, k: nat, r: seq<nat>)
    requires p < |a| && 0 < k <= balance && Picked(misses, a, forbidden, balance, p, k)
    requires Rounds(misses, forbidden, a[p := a[p] + k], balance - k, r)
    ensures Rounds(misses, forbidden, a, balance, r)
  {
  }

  lemma FirstRound(misses: Monitor)
    requires misses(0, 0) == 10 && misses(0, 1) == misses(0, 2) == 5
    requires misses(1, 0) == misses(1, 1) == 10 && misses(1, 2) == 1
    ensures Picked(misses, [0, 0], [], 2, 0, 1)
  {
    assert Mu(misses, 0, 0, 1) == 5.0 && Mu(misses, 0, 0, 2) == 2.5;
    assert Mu(misses, 1, 0, 1) == 0.0 && Mu(misses, 1, 0, 2) == 4.5;
    forall q: nat, i: nat | q < 2 && 0 < i <= 2 ensures Mu(misses, q, 0, i) <= 5.0 {
      assert (q == 0 || q == 1) && (i == 1 || i == 2);
    }
  }

  lemma SecondRound(misses: Monitor)
    requires misses(0, 1) == misses(0, 2) == 5 && misses(1, 0) == misses(1, 1) == 10
    ensures Picked(misses, [1, 0], [], 1, 0, 1)
  {
    assert Mu(misses, 0, 1, 1) == 0.0 && Mu(misses, 1, 0, 1) == 0.0;
    forall q: nat, i: nat | q < 2 && 0 < i <= 1 ensures Mu(misses, q, [1, 0][q], i) <= 0.0 {
      assert (q == 0 || q == 1) && i == 1;
    }
  }

  lemma TwoParts(misses: Monitor, x: nat, y: nat)
    ensures TotalMisses(misses, [x, y]) == misses(0, x) + misses(1, y)
  {
    var s, t := [x, y], [x];
    assert s[..|s| - 1] == t && t[..|t| - 1] == [];
    assert TotalMisses(misses, t) == TotalMisses(misses, []) + misses(0, x);
    assert TotalMisses(misses, s) == TotalMisses(misses, t) + misses(1, y);
  }

  /** Moving one partition away from a settled allocation costs at least the price of the buckets moved. */
  lemma {:induction false} MovingCosts(misses: Monitor, p: nat, a: nat, b: nat, minAlloc: nat, top: nat, price: int)
    requires Convex(misses, p, top) && minAlloc <= a <= top && minAlloc <= b <= top
    requires a > minAlloc ==> Gain(misses, p, a - 1) >= price
    requires a < top ==> Gain(misses, p, a) <= price
    ensures misses(p, b) - misses(p, a) >= price * (a - b)
    decreases if a > b then a - b else b - a
  {
    if a > b {
      MovingCosts(misses, p, a, b + 1, minAlloc, top, price);
      assert Gain(misses, p, b) >= Gain(misses, p, a - 1);
      assert price * (a - b) == price * (a - (b + 1)) + price;
    } else if a < b {
      MovingCosts(misses, p, a, b - 1, minAlloc, top, price);
      assert Gain(misses, p, b - 1) <= Gain(misses, p, a);
      assert price * (a - b) == price * (a - (b - 1)) - price;
    }
  }

  function More(a: seq<nat>, b: seq<nat>, p: nat): int
    requires |a| == |b| && p < |a|
  {
    a[p] as int - b[p] as int
  }

  /** The buckets that the first k partitions have more of in a than in b, at the given price each. */
  function Priced(a: seq<nat>, b: seq<nat>, price: int, k: nat): int
    requires |a| == |b| && k <= |a|
  {
    if k == 0 then 0 else Priced(a, b, price, k - 1) + price * More(a, b, k - 1)
  }

  lemma {:induction false} PricedIsPrice(a: seq<nat>, b: seq<nat>, price: int, k: nat)
    requires |a| == |b| && k <= |a|
    ensures Priced(a, b, price, k) == price * (Sum(a[..k]) - Sum(b[..k]))
  {
    if k > 0 {
      PricedIsPrice(a, b, price, k - 1);
      assert a[..k][..k - 1] == a[..k - 1] && b[..k][..k - 1] == b[..k - 1];
      var d := Sum(a[..k - 1]) - Sum(b[..k - 1]);
      assert Sum(a[..k]) - Sum(b[..k]) == d + More(a, b, k - 1);
      assert price * (d + More(a, b, k - 1)) == price * d + price * More(a, b, k - 1);
    }
  }

  lemma {:induction false} PrefixCost(misses: Monitor, a: seq<nat>, b: seq<nat>, minAlloc: nat, forbidden: seq<bool>,
                                      top: nat, price: int, k: nat)
    requires |a| == |b| && k <= |a| && minAlloc <= top
    requires forall p: nat | p < |a| :: Convex(misses, p, top) && a[p] <= top && b[p] <= top
    requires Legal(a, minAlloc, forbidden) && Legal(b, minAlloc, forbidden)
    requires Settled(misses, a, minAlloc, forbidden, top, price)
    ensures TotalMisses(misses, b[..k]) - TotalMisses(misses, a[..k]) >= Priced(a, b, price, k)
  {
    if k > 0 {
      var p := k - 1;
      PrefixCost(misses, a, b, minAlloc, forbidden, top, price, p);
      assert a[..k][..p] == a[..p] && b[..k][..p] == b[..p];
      PartitionCost(misses, a, b, minAlloc, forbidden, top, price, p);
    }
  }

  lemma PartitionCost(misses: Monitor, a: seq<nat>, b: seq<nat>, minAlloc: nat, forbidden: seq<bool>, top: nat,
                      price: int, p: nat)
    requires |a| == |b| && p < |a| && minAlloc <= top
    requires Convex(misses, p, top) && a[p] <= top && b[p] <= top
    requires Legal(a, minAlloc, forbidden) && Legal(b, minAlloc, forbidden)
    requires Settled(misses, a, minAlloc, forbidden, top, price)
    ensures misses(p, b[p]) - misses(p, a[p]) >= price * More(a, b, p)
  {
    if Allowed(forbidden, p) {
      MovingCosts(misses, p, a[p], b[p], minAlloc, top, price);
    } else {
      assert a[p] == b[p];
    }
  }

  lemma EqualSumsPricedZero(a: seq<nat>, b: seq<nat>, price: int)
    requires |a| == |b| && Sum(a) == Sum(b)
    ensures Priced(a, b, price, |a|) == 0
  {
    PricedIsPrice(a, b, price, |a|);
    assert a[..|a|] == a && b[..|b|] == b;
  }

  /** No partition can hold more than the budget. */
  lemma WithinBudget(a: seq<nat>, minAlloc: nat, top: nat, left: nat)
    requires minAlloc <= top && forall p | 0 <= p < |a| :: a[p] >= minAlloc
    requires Sum(a) + left == HandedOut(|a|, top, minAlloc)
    ensures forall p | 0 <= p < |a| :: a[p] + left <= top
  {
    forall p | 0 <= p < |a| ensures a[p] + left <= top {
      SumAbove(a, minAlloc, p);
    }
  }

  lemma SettledIsOptimal(misses: Monitor, a: seq<nat>, b: seq<nat>, minAlloc: nat, forbidden: seq<bool>, top: nat,
                         price: int)
    requires |a| == |b| && minAlloc <= top
    requires forall p: nat | p < |a| :: Convex(misses, p, top) && a[p] <= top && b[p] <= top
    requires Legal(a, minAlloc, forbidden) && Legal(b, minAlloc, forbidden)
    requires Sum(a) == Sum(b)
    requires Settled(misses, a, minAlloc, forbidden, top, price)
    ensures TotalUtility(misses, b) <= TotalUtility(misses, a)
  {
    PrefixCost(misses, a, b, minAlloc, forbidden, top, price, |a|);
    EqualSumsPricedZero(a, b, price);
    assert a[..|a|] == a && b[..|b|] == b;
  }

  /** The buckets handed out are the buckets there are exactly when the minimum is not given to several partitions. */
  lemma SpendsTheBudget(a: seq<nat>, buckets: nat, minAlloc: nat)
    requires minAlloc <= buckets && (|a| == 0 ==> buckets == minAlloc) && Sum(a) == HandedOut(|a|, buckets, minAlloc)
    ensures Sum(a) == buckets <==> |a| == 1 || minAlloc == 0
  {
    var n := |a|;
    assert n * minAlloc == minAlloc + (n - 1) * minAlloc;
    if n > 1 && minAlloc > 0 { assert (n - 1) * minAlloc > 0; }
  }

  method ComputePartitioningTotalUtility(parts: seq<nat>, misses: Monitor) returns (r: U64)
    ensures r == Wrap(TotalUtility(misses, parts))
  {
    var noCacheMisses: U64 := 0;
    var curPartMisses: U64 := 0;
    ghost var j: nat, k: nat := 0, 0;
    for p := 0 to |parts|
      invariant noCacheMisses + j * 0x1_0000_0000_0000_0000 == TotalMisses(misses, Zeros(p))
      invariant curPartMisses + k * 0x1_0000_0000_0000_0000 == TotalMisses(misses, parts[..p])
    {
      assert Zeros(p + 1)[..p] == Zeros(p);
      assert parts[..p + 1][..p] == parts[..p];
      if noCacheMisses + misses(p, 0) >= 0x1_0000_0000_0000_0000 { j := j + 1; }
      if curPartMisses + misses(p, parts[p]) >= 0x1_0000_0000_0000_0000 { k := k + 1; }
      noCacheMisses := Add64(noCacheMisses, misses(p, 0));
      curPartMisses := Add64(curPartMisses, misses(p, parts[p]));
    }
    assert parts[..|parts|] == parts;
    WrapSub(noCacheMisses - curPartMisses, TotalUtility(misses, parts), j - k);
    r := Wrap(noCacheMisses - curPartMisses);
  }

  /** Unsigned 64-bit addition. */
  function Add64(a: U64, b: U64): U64 {
    if a + b >= 0x1_0000_0000_0000_0000 then a + b - 0x1_0000_0000_0000_0000 else a + b
  }

  lemma WrapSub(x: int, y: int, k: int)
    requires x + k * 0x1_0000_0000_0000_0000 == y
    ensures Wrap(x) == Wrap(y)
  {
  }
}
