/** The fully associative LRU array of src/ideal_arrays.h: a hash map for lookups and an
    intrusive list for recency, proved to implement least-recently-used replacement. */
module IdealLru {
  import opened IntrusiveList
  import opened Sets
  import opened AddressMap

  /** s without its element x. */
  function Without(s: seq<nat>, x: nat): seq<nat>
  {
    if s == [] then [] else if s[0] == x then s[1..] else [s[0]] + Without(s[1..], x)
  }

  lemma {:induction false} WithoutAt(s: seq<nat>, k: nat)
    requires k < |s| && Distinct(s)
    ensures Without(s, s[k]) == s[..k] + s[k + 1..]
  {
    if k == 0 {
    } else {
      assert s[0] != s[k];
      WithoutAt(s[1..], k - 1);
      assert s[1..][..k - 1] == s[1..k];
    }
  }

  /** The recency order, most recent first, after touching `trace` one line after the other.
      Before any touch the lines stand in descending order. */
  function Recency(n: nat, trace: seq<nat>): seq<nat>
  {
    if trace == [] then seq(n, i requires 0 <= i < n => n - 1 - i)
    else
      var x := trace[|trace| - 1];
      [x] + Without(Recency(n, trace[..|trace| - 1]), x)
  }

  /** When line x was last touched; lines never touched count as touched in ascending order before the trace. */
  function LastUse(n: nat, trace: seq<nat>, x: nat): int
  {
    if trace == [] then x - n
    else if trace[|trace| - 1] == x then |trace| - 1
    else LastUse(n, trace[..|trace| - 1], x)
  }

  predicate Lines(n: nat, trace: seq<nat>) {
    forall i | 0 <= i < |trace| :: trace[i] < n
  }

  /** r lists every line below n once, from the latest to the earliest last use. */
  ghost predicate LastUseOrder(n: nat, trace: seq<nat>, r: seq<nat>)
  {
    && |r| == n && Distinct(r)
    && (forall i | 0 <= i < n :: r[i] < n && LastUse(n, trace, r[i]) < |trace|)
    && (forall i, j | 0 <= i < j < n :: LastUse(n, trace, r[i]) > LastUse(n, trace, r[j]))
  }

  lemma {:induction false} RecencyIsLastUseOrder(n: nat, trace: seq<nat>)
    requires Lines(n, trace)
    ensures LastUseOrder(n, trace, Recency(n, trace))
  {
    if trace != [] {
      var t := trace[..|trace| - 1];
      var x := trace[|trace| - 1];
      RecencyIsLastUseOrder(n, t);
      TouchKeepsOrder(n, t, x, Recency(n, t));
      assert trace == t + [x];
    }
  }

  lemma TouchKeepsOrder(n: nat, t: seq<nat>, x: nat, r: seq<nat>)
    requires LastUseOrder(n, t, r) && x < n
    ensures LastUseOrder(n, t + [x], [x] + Without(r, x))
  {
    InPermutation(n, r, x);
    var k: nat :| k < n && r[k] == x;
    WithoutAt(r, k);
    TouchAt(n, t, r, k);
  }

  /** s with its element k moved to the front. */
  function Fronted<T>(s: seq<T>, k: nat): seq<T>
    requires k < |s|
  {
    [s[k]] + (s[..k] + s[k + 1..])
  }

  /** Touching x moves it to the front, from where it stands. */
  lemma Moved(n: nat, trace: seq<nat>, x: nat) returns (k: nat)
    requires Lines(n, trace) && x < n
    ensures var r := Recency(n, trace);
      && |r| == n && k < n && r[k] == x && (forall i | 0 <= i < n :: r[i] < n)
      && Recency(n, trace + [x]) == Fronted(r, k)
  {
    RecencyIsLastUseOrder(n, trace);
    var r := Recency(n, trace);
    InPermutation(n, r, x);
    k :| k < n && r[k] == x;
    WithoutAt(r, k);
    assert (trace + [x])[..|trace|] == trace;
  }

  lemma FrontedAt<T>(s: seq<T>, k: nat)
    requires k < |s| && Distinct(s)
    ensures |Fronted(s, k)| == |s| && Fronted(s, k)[0] == s[k] && Distinct(Fronted(s, k))
    ensures forall i | 0 < i < |s| :: Fronted(s, k)[i] == s[if i <= k then i - 1 else i] && Fronted(s, k)[i] != s[k]
  {
  }

  lemma LastUseTouched(n: nat, t: seq<nat>, x: nat)
    ensures LastUse(n, t + [x], x) == |t|
    ensures forall y: nat | y != x :: LastUse(n, t + [x], y) == LastUse(n, t, y)
  {
    assert (t + [x])[..|t|] == t;
  }

  lemma TouchAt(n: nat, t: seq<nat>, r: seq<nat>, k: nat)
    requires LastUseOrder(n, t, r) && k < n
    ensures LastUseOrder(n, t + [r[k]], Fronted(r, k))
  {
    var x := r[k];
    LastUseTouched(n, t, x);
    FrontedAt(r, k);
    hide LastUse, Fronted, Distinct;
  }

  /** n distinct numbers below n include every number below n. */
  lemma InPermutation(n: nat, r: seq<nat>, x: nat)
    requires |r| == n && Distinct(r) && x < n
    requires forall i | 0 <= i < n :: r[i] < n
    ensures x in r
  {
    var s := set i | 0 <= i < n :: r[i];
    DistinctSize(r, n);
    SubsetSize(s, Below(n));
    assert x in Below(n);
  }

  ghost predicate Numbered(lines: seq<Entry>) {
    forall i | 0 <= i < |lines| :: lines[i].lineId == i
  }

  /** The nodes are those of the lines in this order. */
  ghost predicate Follow<T>(nodes: seq<T>, order: seq<nat>, lines: seq<T>) {
    |nodes| == |order| && forall i | 0 <= i < |nodes| :: order[i] < |lines| && nodes[i] == lines[order[i]]
  }

  /** Moving one position to the front keeps two parallel lists parallel. */
  lemma ParallelMove<T>(nodes: seq<T>, order: seq<nat>, lines: seq<T>, k: nat)
    requires Follow(nodes, order, lines) && k < |nodes|
    ensures nodes[k] == lines[order[k]]
    ensures Follow(Fronted(nodes, k), Fronted(order, k), lines)
    ensures |Fronted(nodes, k)| == |nodes|
  {
  }

  /** Removes the element at position k and pushes it to the front. */
  method MoveToFront(list: InList, e: Entry, ghost k: nat)
    requires list.Valid() && k < |list.nodes| && list.nodes[k] == e
    modifies list, list.nodes`prev, list.nodes`next, list.nodes`owner
    ensures list.Valid()
    ensures list.nodes == Fronted(old(list.nodes), k)
  {
    list.Remove(e, k);
    list.PushFront(e);
  }

  lemma TouchedLines(n: nat, trace: seq<nat>, x: nat)
    requires Lines(n, trace) && x < n
    ensures Lines(n, trace + [x])
  {
  }

  class IdealLruArray {
    const numLines: nat
    const entries: array<Entry>
    const lineAddrs: array<nat>  // the entries' lineAddr fields
    const lruList: InList
    var lineMap: map<nat, nat>   // address to line id
    ghost var trace: seq<nat>    // the lines touched so far
    ghost var order: seq<nat>    // line ids, front to back
    ghost const lines: seq<Entry>

    /** The list holds every line's entry once, in the order of its last use. */
    ghost predicate Ordered()
      reads `trace, `order, entries, lruList, lruList.nodes
    {
      && entries[..] == lines && |lines| == numLines == |order|
      && lruList.Valid()
      && Numbered(lines)
      && Follow(lruList.nodes, order, lines)
      && Lines(numLines, trace) && order == Recency(numLines, trace)
    }

    ghost predicate Valid()
      reads this, entries, lineAddrs, lruList, lruList.nodes
    {
      && Ordered()
      && lineAddrs.Length == numLines
      && Inverse(lineMap, lineAddrs[..])
    }

    constructor (numLines: nat)
      ensures Valid() && this.numLines == numLines
      ensures lineMap == map[] && trace == []
    {
      this.numLines := numLines;
      lineMap := map[];
      trace := [];
      order := Recency(numLines, []);
      var list, arr := BuildEntries(numLines);
      entries, lines := arr, arr[..];
      lineAddrs := new nat[numLines](_ => 0);
      lruList := list;
    }

    /** Allocates the lines and pushes them to the front one after the other. */
    static method BuildEntries(n: nat) returns (list: InList, arr: array<Entry>)
      ensures fresh(list) && fresh(list.nodes) && fresh(arr)
      ensures list.Valid() && |list.nodes| == n == arr.Length
      ensures forall j | 0 <= j < n :: arr[j].lineId == j
      ensures forall j | 0 <= j < n :: list.nodes[j] == arr[n - 1 - j]
    {
      list := new InList();
      var lines: seq<Entry> := [];
      for i := 0 to n
        invariant fresh(list) && fresh(list.nodes)
        invariant list.Valid() && |list.nodes| == i == |lines|
        invariant forall j | 0 <= j < i :: list.nodes[j] == lines[i - 1 - j]
        invariant forall j | 0 <= j < i :: lines[j].lineId == j
      {
        var e := new Entry(i);
        list.PushFront(e);
        lines := lines + [e];
      }
      arr := new Entry[n](i requires 0 <= i < |lines| => lines[i]);
    }

    /** lruList.remove and lruList.push_front of one line. */
    method Touch(lineId: nat)
      requires Ordered() && lineId < numLines
      modifies this`trace, this`order, lruList, lruList.nodes`prev, lruList.nodes`next, lruList.nodes`owner
      ensures Ordered() && trace == old(trace) + [lineId]
    {
      hide Ordered, InList.Valid, Follow, Numbered, Fronted, Lines, Recency;
      ghost var k := OrderedParts(lineId);
      MoveToFront(lruList, entries[lineId], k);
      trace, order := trace + [lineId], Fronted(order, k);
      OrderedFromParts();
    }

    /** The line stands at some position, and moving it to the front keeps the lists parallel. */
    lemma OrderedParts(lineId: nat) returns (k: nat)
      requires Ordered() && lineId < numLines
      ensures entries[..] == lines && |lines| == numLines == |order| && lruList.Valid() && Numbered(lines)
      ensures k < |order| == |lruList.nodes| && lruList.nodes[k] == lines[lineId]
      ensures Follow(Fronted(lruList.nodes, k), Fronted(order, k), lines) && |Fronted(order, k)| == |order|
      ensures Lines(numLines, trace + [lineId]) && Recency(numLines, trace + [lineId]) == Fronted(order, k)
    {
      k := Moved(numLines, trace, lineId);
      ParallelMove(lruList.nodes, order, lines, k);
      TouchedLines(numLines, trace, lineId);
    }

    lemma OrderedFromParts()
      requires entries[..] == lines && |lines| == numLines == |order| && lruList.Valid() && Numbered(lines)
      requires Follow(lruList.nodes, order, lines) && Lines(numLines, trace) && order == Recency(numLines, trace)
      ensures Ordered()
    {
    }

    /** The line that holds the address, and -1 when none does. A hit that updates replacement becomes the most recent
        use. */
    method Lookup(lineAddr: nat, updateReplacement: bool) returns (lineId: int)
      requires Valid()
      modifies this`trace, this`order, lruList, lruList.nodes`prev, lruList.nodes`next, lruList.nodes`owner
      ensures Valid()
      ensures lineId == (if lineAddr in lineMap then lineMap[lineAddr] else -1)
      ensures trace == old(trace) + (if lineAddr in lineMap && updateReplacement then [lineMap[lineAddr]] else [])
    {
      if lineAddr !in lineMap { return -1; }
      lineId := lineMap[lineAddr];
      hide Ordered, Inverse;
      if updateReplacement {
        Touch(lineId);
      }
    }

    /** The victim: the line whose last use is the earliest of all. */
    method Preinsert() returns (lineId: nat, wbLineAddr: nat)
      requires Valid() && numLines > 0
      ensures lineId < numLines
      ensures forall i: nat | i < numLines && i != lineId ::
        LastUse(numLines, trace, lineId) < LastUse(numLines, trace, i)
      // what is written back is the address mapped to the victim; 0 if the victim is empty
      ensures wbLineAddr != 0 ==> wbLineAddr in lineMap && lineMap[wbLineAddr] == lineId
      ensures wbLineAddr == 0 ==> forall a | a in lineMap :: lineMap[a] != lineId
    {
      var e := lruList.tail;
      assert order[numLines - 1] == e.lineId;
      lineId, wbLineAddr := e.lineId, lineAddrs[e.lineId];
      RecencyIsLastUseOrder(numLines, trace);
      forall i: nat | i < numLines && i != lineId
        ensures LastUse(numLines, trace, lineId) < LastUse(numLines, trace, i)
      {
        InPermutation(numLines, order, i);
      }
    }

    /** Rebinds the line to the address and makes it the most recent; every other binding stays. */
    method Postinsert(lineAddr: nat, lineId: nat)
      requires Valid() && lineId < numLines && lineAddr != 0
      requires lineAddr in lineMap ==> lineMap[lineAddr] == lineId  // just missed, or already this line's
      modifies this`trace, this`order, this`lineMap, lineAddrs
      modifies lruList, lruList.nodes`prev, lruList.nodes`next, lruList.nodes`owner
      ensures Valid()
      ensures lineMap == Rebound(old(lineMap), lineAddr, lineId)
      ensures lineAddrs[..] == old(lineAddrs[..])[lineId := lineAddr]
      ensures trace == old(trace) + [lineId]
    {
      hide Ordered, Inverse;
      Rebind(lineAddr, lineId);
      Touch(lineId);
    }

    /** Postinsert's update of the address mapping. */
    method Rebind(lineAddr: nat, lineId: nat)
      requires lineAddrs.Length == numLines && Inverse(lineMap, lineAddrs[..])
      requires lineId < numLines && lineAddr != 0
      requires lineAddr in lineMap ==> lineMap[lineAddr] == lineId
      modifies this`lineMap, lineAddrs
      ensures Inverse(lineMap, lineAddrs[..])
      ensures lineMap == Rebound(old(lineMap), lineAddr, lineId)
      ensures lineAddrs[..] == old(lineAddrs[..])[lineId := lineAddr]
    {
      RebindKeepsInverse(lineMap, lineAddrs[..], lineAddr, lineId);
      lineMap := lineMap - {lineAddrs[lineId]};
      assert lineAddr !in lineMap;
      lineAddrs[lineId] := lineAddr;
      lineMap := lineMap[lineAddr := lineId];
      assert lineAddrs[..] == old(lineAddrs[..])[lineId := lineAddr];
    }
  }
}
