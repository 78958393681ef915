/** The activation window of src/ddr_mem.h: a circular buffer of the latest activations of a rank. */
module ActWindow {

  ghost predicate Sorted(s: seq<nat>) {
    forall i, j | 0 <= i <= j < |s| :: s[i] <= s[j]
  }

  /** How far from the end of the window, in order from oldest to newest, a new activation goes: in front of the later
      ones that come after the last one not above it. The oldest entry is not looked at. */
  function InsertAt(w: seq<nat>, act: nat, k: nat): (r: nat)
    requires 1 <= k <= |w|
    ensures 1 <= r <= k && (forall i | r <= i < k :: w[i] > act) && (r > 1 ==> w[r - 1] <= act)
  {
    if k == 1 || w[k - 1] <= act then k else InsertAt(w, act, k - 1)
  }

  /** The window after an activation. The oldest entry makes room. An activation older than all the others goes last,
      and the newest comes first instead, because the loop has overwritten the oldest entry when it looks at it. */
  function Inserted(w: seq<nat>, act: nat): (w': seq<nat>)
    requires |w| > 0
    ensures |w'| == |w|
  {
    Placed(w, act, InsertAt(w, act, |w|))
  }

  function PlacedAt(w: seq<nat>, act: nat, k: nat, j: nat): nat
    requires 1 <= k <= |w| && j < |w|
  {
    if k == 1 && |w| > 1 then (if j == 0 then w[|w| - 1] else if j == |w| - 1 then act else w[j])
    else if j < k - 1 then w[j + 1]
    else if j == k - 1 then act
    else w[j]
  }

  function Placed(w: seq<nat>, act: nat, k: nat): (w': seq<nat>)
    requires 1 <= k <= |w|
    ensures |w'| == |w|
    ensures forall j: nat | j < |w| :: w'[j] == PlacedAt(w, act, k, j)
  {
    if k == 1 && |w| > 1 then [w[|w| - 1]] + w[1..|w| - 1] + [act]
    else w[1..k] + [act] + w[k..]
  }

  lemma Parts(w: seq<nat>, act: nat) returns (a: seq<nat>, b: seq<nat>)
    requires |w| > 0
    ensures w == [w[0]] + a + b
    ensures Inserted(w, act) == a + [act] + b || Inserted(w, act) == b + a + [act]
  {
    var n, k := |w|, InsertAt(w, act, |w|);
    if k == 1 && n > 1 {
      a, b := w[1..n - 1], [w[n - 1]];
    } else {
      a, b := w[1..k], w[k..];
    }
  }

  /** Whatever the order, the window loses its first entry and gains the activation. */
  lemma InsertedContents(w: seq<nat>, act: nat)
    requires |w| > 0
    ensures multiset(Inserted(w, act)) == multiset(w) - multiset{w[0]} + multiset{act}
  {
    var a, b := Parts(w, act);
    Rearranged(w[0], a, b, act);
  }

  lemma Rearranged(x: nat, a: seq<nat>, b: seq<nat>, y: nat)
    ensures multiset(a + [y] + b) == multiset([x] + a + b) - multiset{x} + multiset{y}
    ensures multiset(b + a + [y]) == multiset([x] + a + b) - multiset{x} + multiset{y}
  {
    assert multiset([x] + a + b) == multiset{x} + multiset(a) + multiset(b);
    assert multiset(a + [y] + b) == multiset(a) + multiset{y} + multiset(b);
    assert multiset(b + a + [y]) == multiset(b) + multiset(a) + multiset{y};
  }

  /** The window stays sorted exactly if the activation is not older than all others but the oldest. */
  lemma SortedKeptIff(w: seq<nat>, act: nat)
    requires |w| > 0 && Sorted(w) && w[0] <= act
    ensures Sorted(Inserted(w, act)) <==> |w| == 1 || act >= w[1]
  {
    var n, k, w' := |w|, InsertAt(w, act, |w|), Inserted(w, act);
    if k == 1 && n > 1 {
      assert w'[0] == w[n - 1] && w'[n - 1] == act;
    } else {
      forall i, j | 0 <= i <= j < n ensures w'[i] <= w'[j] {
        assert i < k - 1 ==> w'[i] == w[i + 1];
        assert i > k - 1 ==> w'[i] == w[i];
        assert j < k - 1 ==> w'[j] == w[j + 1];
        assert j > k - 1 ==> w'[j] == w[j];
      }
    }
  }

  /** For example, with activations 10, 20, 30, 40 recorded, one at 15 moves the 40 to the front, where it
      delays the next activation more than tFAW demands. */
  lemma OlderThanTheRest()
    ensures Inserted([10, 20, 30, 40], 15) == [40, 20, 30, 15]
  {
    var w := [10, 20, 30, 40];
    assert InsertAt(w, 15, 4) == 1;
  }

  // ---- no more than |w| activations in any window of tFAW cycles

  function CountAtLeast(s: seq<nat>, x: int): nat {
    if s == [] then 0 else (if s[0] >= x then 1 else 0) + CountAtLeast(s[1..], x)
  }

  function CountIn(s: seq<nat>, lo: int, hi: int): nat {
    if s == [] then 0 else (if lo <= s[0] < hi then 1 else 0) + CountIn(s[1..], lo, hi)
  }

  lemma {:induction false} CountAtLeastConcat(a: seq<nat>, b: seq<nat>, x: int)
    ensures CountAtLeast(a + b, x) == CountAtLeast(a, x) + CountAtLeast(b, x)
  {
    if a == [] {
      assert a + b == b;
    } else {
      assert (a + b)[1..] == a[1..] + b;
      CountAtLeastConcat(a[1..], b, x);
    }
  }

  lemma {:induction false} CountAtMost(s: seq<nat>, x: int)
    ensures CountAtLeast(s, x) <= |s|
  {
    if s != [] {
      CountAtMost(s[1..], x);
    }
  }

  lemma CountInserted(w: seq<nat>, act: nat, x: int)
    requires |w| > 0
    ensures CountAtLeast(Inserted(w, act), x) + (if w[0] >= x then 1 else 0)
         == CountAtLeast(w, x) + (if act >= x then 1 else 0)
  {
    var n, k := |w|, InsertAt(w, act, |w|);
    if k == 1 && n > 1 {
      assert w[1..] == w[1..n - 1] + [w[n - 1]];
      CountAtLeastConcat(w[1..n - 1], [w[n - 1]], x);
      CountAtLeastConcat([w[n - 1]] + w[1..n - 1], [act], x);
      CountAtLeastConcat([w[n - 1]], w[1..n - 1], x);
    } else {
      assert w[1..] == w[1..k] + w[k..];
      CountAtLeastConcat(w[1..k], w[k..], x);
      CountAtLeastConcat(w[1..k] + [act], w[k..], x);
      CountAtLeastConcat(w[1..k], [act], x);
    }
  }

  /** The activations since the start, newest first: each one respected the oldest window entry of its time. */
  ghost predicate Respects(w: seq<nat>, acts: seq<nat>, tFAW: nat, size: nat)
    decreases |acts|
  {
    if acts == [] then size > 0 && w == seq(size, _ => 0)
    else
      exists v: seq<nat> | |v| > 0 && Respects(v, acts[1..], tFAW, size) ::
        acts[0] >= v[0] + tFAW && w == Inserted(v, acts[0])
  }

  lemma {:induction false} WindowCovers(w: seq<nat>, acts: seq<nat>, tFAW: nat, size: nat, x: int)
    requires Respects(w, acts, tFAW, size)
    ensures |w| == size > 0 && CountIn(acts, x, x + tFAW) <= CountAtLeast(w, x)
    decreases |acts|
  {
    if acts != [] {
      var v: seq<nat> :|
        |v| > 0 && Respects(v, acts[1..], tFAW, size) && acts[0] >= v[0] + tFAW && w == Inserted(v, acts[0]);
      WindowCovers(v, acts[1..], tFAW, size, x);
      CountInserted(v, acts[0], x);
    }
  }

  /** Any run of activations that respects the window's oldest entry each time puts no more than `size` of them into
      any tFAW cycles, in whatever order they are recorded: size + 1 activations span at least tFAW. */
  lemma AtMostSizeInAnyWindow(w: seq<nat>, acts: seq<nat>, tFAW: nat, size: nat, x: int)
    requires Respects(w, acts, tFAW, size)
    ensures CountIn(acts, x, x + tFAW) <= size
  {
    WindowCovers(w, acts, tFAW, size, x);
    CountAtMost(w, x);
  }

  function Rotated(s: seq<nat>, idx: nat): (w: seq<nat>)
    requires idx < |s|
    ensures |w| == |s| && forall j: nat | j < |s| :: w[j] == s[if idx + j < |s| then idx + j else idx + j - |s|]
  {
    s[idx..] + s[..idx]
  }

  /** In a circular buffer of n entries, the position k places after idx. */
  ghost function Slot(n: nat, idx: nat, k: nat): (r: nat)
    requires idx < n && 1 <= k <= n
    ensures r < n
  {
    if idx + k < n then idx + k else idx + k - n
  }

  /** In the loop of addActivation, the entries after slot k have moved on; `oldest` if slot 1 has too. */
  ghost predicate Shifting(w: seq<nat>, act: nat, idx: nat, s: seq<nat>, k: nat, oldest: bool) {
    && idx < |w| == |s| && 1 <= k <= |w| && InsertAt(w, act, |w|) == InsertAt(w, act, k)
    && (if k == |w| then s[idx] == w[0] else w[|w| - 1] > act)
    && (oldest ==> k == 1 && |w| > 1 && s[Slot(|w|, idx, 1)] == w[|w| - 1])
    && (forall j: nat {:trigger Slot(|w|, idx, j)} | 1 <= j < k :: s[Slot(|w|, idx, j)] == w[j])
    && (forall j: nat {:trigger Slot(|w|, idx, j)} | k < j < |w| || (j == |w| && k < |w| && !oldest) ::
          s[Slot(|w|, idx, j)] == w[j - 1])
  }

  lemma ShiftStarts(w: seq<nat>, act: nat, idx: nat, s: seq<nat>)
    requires idx < |s| && w == Rotated(s, idx)
    ensures Shifting(w, act, idx, s, |w|, false) && Slot(|w|, idx, |w|) == idx
  {
  }

  /** One entry moves on. */
  lemma ShiftStep(w: seq<nat>, act: nat, idx: nat, s: seq<nat>, k: nat)
    requires Shifting(w, act, idx, s, k, false)
    ensures var n := |w|;
      var cur, d := Slot(n, idx, k), if k > 1 then Slot(n, idx, k - 1) else idx;
      && d == (if cur > 0 then cur - 1 else n - 1)
      && (s[d] > act && k > 1 ==> Shifting(w, act, idx, s[cur := s[d]], k - 1, false) && d != idx)
      && (s[d] > act && k == 1 && n > 1 ==> Shifting(w, act, idx, s[cur := s[d]], k, true))
      && (k == 1 && n == 1 ==> s[d] == w[0])
      && (s[d] <= act ==> InsertAt(w, act, n) == k && (k > 1 || n == 1))
  {
    var n := |w|;
    var cur, d := Slot(n, idx, k), if k > 1 then Slot(n, idx, k - 1) else idx;
    if k > 1 {
      assert s[d] == w[k - 1];
    } else if n > 1 {
      assert s[Slot(n, idx, n)] == w[n - 1];
    }
  }

  /** The loop stopped at slot k, or found itself the oldest, and the activation is stored. */
  lemma Settled(w: seq<nat>, act: nat, idx: nat, s: seq<nat>, k: nat, oldest: bool)
    requires Shifting(w, act, idx, s, k, oldest)
    requires oldest || (InsertAt(w, act, |w|) == k && (k > 1 || |w| == 1))
    ensures var cur := if oldest then idx else Slot(|w|, idx, k);
      Rotated(s[cur := act], if idx < |w| - 1 then idx + 1 else 0) == Inserted(w, act)
  {
    var n := |w|;
    var cur := if oldest then idx else Slot(n, idx, k);
    var r := Rotated(s[cur := act], if idx < n - 1 then idx + 1 else 0);
    forall j: nat | j < n ensures r[j] == PlacedAt(w, act, k, j) {
      SettledAt(w, act, idx, s, k, oldest, j);
      assert r[j] == s[cur := act][Slot(n, idx, j + 1)];
    }
    assert r == Placed(w, act, k);
  }

  lemma SettledAt(w: seq<nat>, act: nat, idx: nat, s: seq<nat>, k: nat, oldest: bool, j: nat)
    requires Shifting(w, act, idx, s, k, oldest) && (oldest || k > 1 || |w| == 1) && j < |w|
    ensures var cur := if oldest then idx else Slot(|w|, idx, k);
      s[cur := act][Slot(|w|, idx, j + 1)] == PlacedAt(w, act, k, j)
  {
  }

  class ActWindowObject {
    const buf: array<nat>
    var idx: nat

    ghost predicate Valid()
      reads this, buf
    {
      idx < buf.Length
    }

    /** The entries from the oldest to the newest. */
    ghost function Entries(): (w: seq<nat>)
      requires Valid()
      reads this, buf
      ensures |w| == buf.Length && w[0] == buf[idx]
    {
      Rotated(buf[..], idx)
    }

    constructor (size: nat)
      requires size > 0
      ensures Valid() && Entries() == seq(size, _ => 0) && fresh(buf)
    {
      buf := new nat[size](_ => 0);
      idx := 0;
    }

    method MinActCycle() returns (cycle: nat)
      requires Valid()
      ensures cycle == Entries()[0]
    {
      cycle := buf[idx];
    }

    function Inc(i: nat): nat
    {
      if i < buf.Length - 1 then i + 1 else 0
    }

    function Dec(i: nat): nat
      requires buf.Length > 0
    {
      if i > 0 then i - 1 else buf.Length - 1
    }

    /** Where the loop of AddActivation is: cur is the slot that the new activation may take. */
    ghost predicate At(w: seq<nat>, act: nat, cur: nat, k: nat, oldest: bool)
      reads this, buf
    {
      Shifting(w, act, idx, buf[..], k, oldest) && cur == if oldest then idx else Slot(|w|, idx, k)
    }

    /** The loop body: one entry moves on. */
    method Shift(cur: nat, act: nat, ghost w: seq<nat>, ghost k: nat) returns (cur': nat, oldest: bool, ghost k': nat)
      requires At(w, act, cur, k, false) && buf[Dec(cur)] > act && w[0] <= act
      modifies buf
      ensures At(w, act, cur', k', oldest) && (if oldest then k' == k else k' < k)
    {
      ghost var s := buf[..];
      ShiftStep(w, act, idx, s, k);
      buf[cur] := buf[Dec(cur)];
      assert buf[..] == s[cur := s[Dec(cur)]];
      cur' := Dec(cur);
      oldest := cur' == idx;  // we're the oldest in the window
      k' := if oldest then k else k - 1;
    }

    /** After the loop: the activation is stored, and the next entry is the oldest. */
    method Store(cur: nat, act: nat, ghost w: seq<nat>, ghost k: nat, ghost oldest: bool)
      requires At(w, act, cur, k, oldest) && (oldest || buf[Dec(cur)] <= act)
      modifies this, buf
      ensures Valid() && Entries() == Inserted(w, act)
    {
      ghost var s := buf[..];
      if !oldest {
        ShiftStep(w, act, idx, s, k);
      }
      Settled(w, act, idx, s, k, oldest);
      buf[cur] := act;
      assert buf[..] == s[cur := act];
      idx := Inc(idx);
    }

    method AddActivation(actCycle: nat)
      requires Valid() && buf[idx] <= actCycle
      modifies this, buf
      ensures Valid() && Entries() == Inserted(old(Entries()), actCycle)
    {
      ghost var w := Entries();
      ghost var k: nat := |w|;
      var cur := idx;
      var oldest := false;
      ShiftStarts(w, actCycle, idx, buf[..]);
      while !oldest && buf[Dec(cur)] > actCycle
        invariant At(w, actCycle, cur, k, oldest)
        decreases !oldest, k
      {
        cur, oldest, k := Shift(cur, actCycle, w, k);
      }
      Store(cur, actCycle, w, k, oldest);
    }
  }
}
