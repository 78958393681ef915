/** The ideal partitioned replacement policy of src/ideal_arrays.h: one LRU list per partition, and a victim from the
    partition that exceeds its target most, in proportion. */
module IdealPart {
  import opened IdealLru
  import opened Sets

  /** From the latest use to the earliest; so no line is listed twice. */
  ghost predicate Descending(s: seq<nat>, use: seq<int>) {
    && (forall i | 0 <= i < |s| :: s[i] < |use|)
    && (forall i, j | 0 <= i < j < |s| :: use[s[i]] > use[s[j]])
  }

  lemma {:induction false} WithoutAbsent(s: seq<nat>, x: nat)
    requires x !in s
    ensures Without(s, x) == s
  {
    if s != [] {
      WithoutAbsent(s[1..], x);
    }
  }

  /** s without its element k. */
  function Cut(s: seq<nat>, k: nat): (r: seq<nat>)
    requires k < |s|
    ensures |r| == |s| - 1 && forall i | 0 <= i < |r| :: r[i] == s[if i < k then i else i + 1]
  {
    s[..k] + s[k + 1..]
  }

  lemma CutKeeps(s: seq<nat>, k: nat, use: seq<int>)
    requires Descending(s, use) && k < |s|
    ensures Descending(Cut(s, k), use) && s[k] !in Cut(s, k)
    ensures forall y | y in s && y != s[k] :: y in Cut(s, k)
  {
    var r := Cut(s, k);
    forall i | 0 <= i < |r| ensures r[i] != s[k] {
      assert use[r[i]] != use[s[k]];
    }
    forall y | y in s && y != s[k] ensures y in r {
      var i :| 0 <= i < |s| && s[i] == y;
      assert r[if i < k then i else i - 1] == y;
    }
  }

  lemma WithoutKeeps(s: seq<nat>, x: nat, use: seq<int>)
    requires Descending(s, use)
    ensures Descending(Without(s, x), use)
    ensures forall y :: y in Without(s, x) <==> y in s && y != x
    ensures |Without(s, x)| == |s| - if x in s then 1 else 0
  {
    if x in s {
      var k :| 0 <= k < |s| && s[k] == x;
      assert Distinct(s);
      WithoutAt(s, k);
      CutKeeps(s, k, use);
      hide Descending, Distinct;
      assert Without(s, x) == Cut(s, k);
    } else {
      WithoutAbsent(s, x);
    }
  }

  /** A new latest use of a line leaves the lists without it in order, and goes in front of any of them. */
  lemma LatestUse(s: seq<nat>, x: nat, use: seq<int>, time: int)
    requires Descending(s, use) && x < |use| && x !in s && forall y | 0 <= y < |use| :: use[y] < time
    ensures Descending(s, use[x := time]) && Descending([x] + s, use[x := time])
  {
    var u := use[x := time];
    forall i | 0 <= i < |s| ensures u[s[i]] == use[s[i]] {
      assert s[i] in s;
    }
  }

  /** Every line is in the list of its partition and in no other, and each list is in order of use. */
  ghost predicate ListsOk(lists: seq<seq<nat>>, part: seq<nat>, use: seq<int>) {
    && |part| == |use|
    && (forall p | 0 <= p < |lists| :: Descending(lists[p], use))
    && (forall l: nat | l < |part| :: part[l] < |lists| && l in lists[part[l]])
    && (forall p: nat, l | p < |lists| && l in lists[p] :: l < |part| && part[l] == p)
  }

  /** A used line leaves its list and goes to the front of another, or of the same one. */
  function Reused(lists: seq<seq<nat>>, id: nat, from: nat, to: nat): (r: seq<seq<nat>>)
    requires from < |lists| && to < |lists|
    ensures |r| == |lists|
  {
    var rest := lists[from := Without(lists[from], id)];
    rest[to := [id] + rest[to]]
  }

  lemma ReusedKeepsLists(lists: seq<seq<nat>>, part: seq<nat>, use: seq<int>, id: nat, to: nat, time: int)
    requires ListsOk(lists, part, use) && id < |part| && to < |lists| && forall l | 0 <= l < |use| :: use[l] < time
    ensures ListsOk(Reused(lists, id, part[id], to), part[id := to], use[id := time])
    ensures var r, from := Reused(lists, id, part[id], to), part[id];
      forall p | 0 <= p < |lists| ::
        |r[p]| == |lists[p]| - (if p == from then 1 else 0) + (if p == to then 1 else 0)
  {
    var from := part[id];
    WithoutKeeps(lists[from], id, use);
    var rest := lists[from := Without(lists[from], id)];
    forall p: nat | p < |lists|
      ensures Descending(rest[p], use[id := time]) && Descending([id] + rest[p], use[id := time]) && id !in rest[p]
    {
      LatestUse(rest[p], id, use, time);
    }
    var r, part' := Reused(lists, id, from, to), part[id := to];
    forall l: nat | l < |part'| ensures l in r[part'[l]] {
      if l != id {
        assert l in lists[part[l]] && l in rest[part[l]];
      }
    }
    forall p: nat, l | p < |r| && l in r[p] ensures l < |part'| && part'[l] == p {
      assert l == id || l in rest[p];
    }
  }

  lemma LastIsLeast(lists: seq<seq<nat>>, part: seq<nat>, use: seq<int>, v: nat)
    requires ListsOk(lists, part, use) && v < |lists| && lists[v] != []
    ensures var last := lists[v][|lists[v]| - 1];
      last < |part| && part[last] == v && forall l: nat | l < |part| && part[l] == v :: use[last] <= use[l]
  {
    var last := lists[v][|lists[v]| - 1];
    assert last in lists[v];
    forall l: nat | l < |part| && part[l] == v ensures use[last] <= use[l] {
      var k :| 0 <= k < |lists[v]| && lists[v][k] == l;
      assert Descending(lists[v], use);
    }
  }

  /** By how much a partition exceeds its target, in proportion to it. */
  function Diff(size: nat, target: nat): real {
    (size - target) as real / (target + 1) as real
  }

  /** Which of two partitions exceeds its target more, in proportion, is told by multiplying both out. */
  lemma DiffCompares(size: nat, target: nat, size': nat, target': nat)
    ensures Diff(size, target) < Diff(size', target') <==>
            (size - target) * (target' + 1) < (size' - target') * (target + 1)
    ensures Diff(size, target) > 0.0 <==> size > target
  {
    var x, y, d, d' := Diff(size, target), Diff(size', target'), (target + 1) as real, (target' + 1) as real;
    assert x * d == (size - target) as real && y * d' == (size' - target') as real;
    var a, b := (size - target) * (target' + 1), (size' - target') * (target + 1);
    assert a as real == x * d * d' by { Product(size - target, target' + 1); }
    assert b as real == y * d' * d by { Product(size' - target', target + 1); }
    ScaleLess(x, y, d * d');
  }

  lemma Product(a: int, b: int)
    ensures (a * b) as real == a as real * b as real
  {
  }

  lemma ScaleLess(x: real, y: real, d: real)
    requires d > 0.0
    ensures x < y <==> x * d < y * d
  {
  }

  function AllLines(n: nat): (s: seq<nat>)
    ensures |s| == n && forall i | 0 <= i < n :: s[i] == n - 1 - i
  {
    seq(n, i requires 0 <= i < n => n - 1 - i)
  }

  /** The first partition has x, and the others have y. */
  function OnlyFirst<T>(n: nat, x: T, y: T): (s: seq<T>)
    ensures |s| == n && forall i | 0 <= i < n :: s[i] == if i == 0 then x else y
  {
    seq(n, i => if i == 0 then x else y)
  }

  /** At first all lines belong to the first partition. */
  lemma FirstLists(lists: seq<seq<nat>>, part: seq<nat>, use: seq<int>)
    requires lists != [] && |use| == |part| && lists[0] == AllLines(|part|)
    requires forall p | 0 < p < |lists| :: lists[p] == []
    requires forall l | 0 <= l < |part| :: part[l] == 0 && use[l] == l
    ensures ListsOk(lists, part, use)
  {
    forall l: nat | l < |part| ensures l in lists[0] {
      assert lists[0][|part| - 1 - l] == l;
    }
  }

  class IdealPartPolicy {
    const numLines: nat
    var part: seq<nat>        // Entry::p of every line
    var used: seq<bool>       // Entry::used of every line
    var lists: seq<seq<nat>>  // lruList of every partition, as line ids
    var size: seq<nat>        // and its size
    var target: seq<nat>      // and its targetSize

    ghost var lastUse: seq<int>
    ghost var time: int

    ghost predicate Valid()
      reads this
    {
      && |part| == |used| == numLines && |lists| == |size| == |target| && ListsOk(lists, part, lastUse)
      && (forall p | 0 <= p < |lists| :: size[p] == |lists[p]|)
      && (forall l | 0 <= l < numLines :: lastUse[l] < time)
    }

    constructor (numLines: nat, partitions: nat, target: seq<nat>)
      requires partitions > 0 && |target| == partitions
      ensures Valid() && this.numLines == numLines && this.target == target && |lists| == partitions
    {
      this.numLines := numLines;
      part, used := seq(numLines, _ => 0), seq(numLines, _ => true);
      // pushed to the front one after the other
      lists := OnlyFirst(partitions, AllLines(numLines), []);
      size := OnlyFirst(partitions, numLines, 0);
      this.target := target;
      lastUse, time := seq(numLines, l => l), numLines;
      new;
      hide ListsOk, OnlyFirst, AllLines;
      FirstLists(lists, part, lastUse);
    }

    /** A line is used: a resident one by its partition, a just replaced one by the requester's. */
    method Update(id: nat, newPart: nat)
      requires Valid() && id < numLines && newPart < |lists|
      modifies `part, `used, `lists, `size, `lastUse, `time
      ensures Valid() && time == old(time) + 1 && lastUse == old(lastUse)[id := old(time)]
      ensures var to := if old(used)[id] then old(part)[id] else newPart;
        part == old(part)[id := to] && used == old(used)[id := true]
    {
      hide ListsOk;
      SizesOfLists(id);
      var from := part[id];
      var to := if used[id] then from else newPart;
      ReusedKeepsLists(lists, part, lastUse, id, to, time);
      if from != to {
        size := size[from := size[from] - 1];
        size := size[to := size[to] + 1];
      }
      part := part[id := to];
      lists := Reused(lists, id, from, to);
      used := used[id := true];
      lastUse, time := lastUse[id := time], time + 1;
    }

    lemma SizesOfLists(id: nat)
      requires Valid() && id < numLines
      ensures |lastUse| == numLines && part[id] < |lists| && size[part[id]] > 0
    {
      assert id in lists[part[id]];
    }

    method Replaced(id: nat)
      requires Valid() && id < numLines
      modifies `used
      ensures Valid() && used == old(used)[id := false]
    {
      used := used[id := false];
    }

    /** Partition v is to give up a line: the requester's own if no partition exceeds its target, and else the first
        one that exceeds it most. An empty partition cannot be chosen. */
    ghost predicate Gives(v: nat, own: nat)
      requires Valid() && own < |lists|
      reads this
    {
      var least := if size[own] == 0 then -2.0 else 0.0;
      && v < |lists| && size[v] > 0
      && ((v == own && NoneAbove(least, |lists|))
          || (Diff(size[v], target[v]) > least && NoneAbove(Diff(size[v], target[v]), |lists|)
              && forall p: nat | p < v && size[p] > 0 :: Diff(size[p], target[p]) < Diff(size[v], target[v])))
    }

    ghost predicate NoneAbove(diff: real, n: nat)
      requires Valid() && n <= |lists|
      reads this
    {
      forall p: nat | p < n && size[p] > 0 :: Diff(size[p], target[p]) <= diff
    }

    /** The victim is the least recently used line of that partition; the source's asserts hold. */
    method Rank(own: nat) returns (lineId: nat, ghost victimPart: nat)
      requires Valid() && own < |lists| && numLines > 0
      ensures Gives(victimPart, own)
      ensures lineId < numLines && part[lineId] == victimPart
      ensures forall l | 0 <= l < numLines && part[l] == victimPart :: lastUse[lineId] <= lastUse[l]
    {
      hide ListsOk;
      var v: nat := own;
      var maxPartDiff := 0.0;
      if size[own] == 0 {
        maxPartDiff := -2.0;  // force a partition that is not empty
      }
      ghost var least := maxPartDiff;
      for p := 0 to |lists|
        invariant v < |lists| == |size| == |target| && maxPartDiff >= least
        invariant if maxPartDiff == least then v == own
                  else size[v] > 0 && maxPartDiff == Diff(size[v], target[v]) && v < p
        invariant NoneAbove(maxPartDiff, p)
        invariant maxPartDiff > least ==> forall q: nat | q < v && size[q] > 0 :: Diff(size[q], target[q]) < maxPartDiff
      {
        var diff := Diff(size[p], target[p]);
        if diff > maxPartDiff && size[p] > 0 {
          maxPartDiff := diff;
          v := p;
        }
      }
      SomePartitionGives();
      assert size[v] > 0;
      assert size[v] == |lists[v]|;
      LastIsLeast(lists, part, lastUse, v);
      lineId := lists[v][|lists[v]| - 1];
      victimPart := v;
    }

    /** Some partition is not empty, and so exceeds -2. */
    lemma SomePartitionGives()
      requires Valid() && numLines > 0
      ensures |lastUse| == numLines && part[0] < |lists|
      ensures size[part[0]] > 0 && Diff(size[part[0]], target[part[0]]) > -2.0
    {
      assert 0 in lists[part[0]];
      DiffAbove(size[part[0]], target[part[0]]);
    }
  }

  lemma Cancel(x: real, y: real, d: real)
    requires d > 0.0 && x * d < y * d
    ensures x < y
  {
    assert (y - x) * d > 0.0;
  }

  lemma DiffAbove(size: nat, target: nat)
    ensures Diff(size, target) > -1.0
  {
    var d, q := (target + 1) as real, Diff(size, target);
    assert q * d == (size - target) as real > -1.0 * d;
    Cancel(-1.0, q, d);
  }
}
