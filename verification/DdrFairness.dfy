/** How far row hits may go ahead of older requests, in one bank's list of src/ddr_mem.cpp. */
module DdrFairness {
  import opened DdrQueues
  import opened DdrTiming

  /** A request that is younger than all in the list is queued there, whatever state the bank is in. */
  ghost predicate Arrives(q: seq<Request>, r: Request, b: Bank, limit: nat, q': seq<Request>) {
    (forall i | 0 <= i < |q| :: q[i].id < r.id) && q' == Queued(q, r, b, limit)
  }

  /** The list before and after an arrival, or the service of its front. */
  ghost predicate ListStep(q: seq<Request>, q': seq<Request>, bank: nat, limit: nat) {
    (q != [] && q' == q[1..]) || exists r: Request, b: Bank :: r.bank == bank && Arrives(q, r, b, limit, q')
  }

  /** Every bank's list on either side of the controller goes through such steps: a request that joins the side arrives
      in its bank's list. */
  lemma JoinedIsAStep(s: Side, nextId: nat, limit: nat, depth: nat, banks: nat, r: Request, b: Bank, c: nat)
    requires SideOk(s, nextId, limit, depth, banks) && r.bank < banks && r.id == nextId && c < banks
    ensures var q, q' := s.lists[c], Joined(s, r, b, limit).lists[c];
      if c == r.bank then Arrives(q, r, b, limit, q') && ListStep(q, q', c, limit) else q' == q
  {
    var q := s.lists[c];
    forall i | 0 <= i < |q| ensures q[i].id < nextId {
      assert Within(q, q[i]) && Within(s.queue, q[i]);
    }
    if c == r.bank {
      assert Arrives(q, r, b, limit, Joined(s, r, b, limit).lists[c]);
    }
  }

  /** And one that is served leaves the front of it. */
  lemma LeftIsAStep(s: Side, nextId: nat, limit: nat, depth: nat, banks: nat, k: nat, c: nat)
    requires SideOk(s, nextId, limit, depth, banks) && k < |s.queue| && First(s.lists, s.queue[k]) && c < banks
    ensures var q, q' := s.lists[c], Left(s, k).lists[c];
      if c == s.queue[k].bank then q != [] && q[0] == s.queue[k] && q' == q[1..] && ListStep(q, q', c, limit)
      else q' == q
  {
    var bank := s.queue[k].bank;
    assert RemoveAt(s.lists[bank], 0) == s.lists[bank][1..];
  }

  /** The requests for the row that are younger than x and stand ahead of it. */
  ghost function AheadOf(q: seq<Request>, x: Request, row: nat): set<nat> {
    set i, j | 0 <= i < j < |q| && q[j] == x && q[i].row == row && q[i].id > x.id :: q[i].id
  }

  /** Those that ever stood ahead of x, while the list went through these states. */
  ghost function Overtakers(qs: seq<seq<Request>>, x: Request, row: nat): set<nat> {
    if qs == [] then {} else Overtakers(qs[..|qs| - 1], x, row) + AheadOf(qs[|qs| - 1], x, row)
  }

  /** The list went through these states while x, the youngest at first, waited in it. */
  ghost predicate Waits(qs: seq<seq<Request>>, x: Request, bank: nat, limit: nat) {
    && qs != [] && ListOk(qs[0], bank, limit) && (forall i | 0 <= i < |qs[0]| :: qs[0][i].id <= x.id)
    && (forall k | 0 <= k < |qs| :: x in qs[k])
    && forall k | 0 < k < |qs| :: ListStep(qs[k - 1], qs[k], bank, limit)
  }

  lemma WaitsBefore(qs: seq<seq<Request>>, x: Request, bank: nat, limit: nat)
    requires Waits(qs, x, bank, limit) && |qs| > 1
    ensures Waits(qs[..|qs| - 1], x, bank, limit)
    ensures var n := |qs| - 1; x in qs[n - 1] && x in qs[n] && ListStep(qs[n - 1], qs[n], bank, limit)
  {
    hide ListStep, ListOk;
    var n := |qs| - 1;
    var before := qs[..n];
    assert forall k | 0 <= k < n :: before[k] == qs[k];
    assert ListStep(qs[n - 1], qs[n], bank, limit);
  }

  /** If more requests for the row may go ahead of x, the last one there has a number of n or more. */
  ghost predicate Used(q: seq<Request>, x: Request, row: nat, n: nat) {
    var m := LastOfRow(q, row, |q|);
    forall j | 0 <= m < j < |q| && q[j] == x :: q[m].rowHitSeq >= n
  }

  /** While a request waits, at most as many younger ones of any row go ahead of it as the row-hit limit says. */
  lemma {:induction false} OvertakersAreFew(qs: seq<seq<Request>>, x: Request, row: nat, bank: nat, limit: nat)
    requires Waits(qs, x, bank, limit)
    ensures |Overtakers(qs, x, row)| <= limit
    ensures ListOk(qs[|qs| - 1], bank, limit) && Used(qs[|qs| - 1], x, row, |Overtakers(qs, x, row)|)
  {
    var n := |qs| - 1;
    if n == 0 {
      assert Overtakers(qs[..0], x, row) == {};
      assert AheadOf(qs[0], x, row) == {};
    } else {
      var before := qs[..n];
      WaitsBefore(qs, x, bank, limit);
      hide ListStep, ListOk, Used, AheadOf;
      OvertakersAreFew(before, x, row, bank, limit);
      assert before[n - 1] == qs[n - 1] && AheadOf(qs[n - 1], x, row) <= Overtakers(before, x, row);
      StepAddsOne(qs[n - 1], qs[n], x, row, bank, limit, Overtakers(before, x, row));
    }
  }

  lemma StepAddsOne(q: seq<Request>, q': seq<Request>, x: Request, row: nat, bank: nat, limit: nat, s: set<nat>)
    requires ListOk(q, bank, limit) && ListStep(q, q', bank, limit) && x in q && x in q'
    requires AheadOf(q, x, row) <= s && |s| <= limit && Used(q, x, row, |s|)
    ensures ListOk(q', bank, limit) && Used(q', x, row, |s + AheadOf(q', x, row)|)
    ensures |s + AheadOf(q', x, row)| <= limit
  {
    if q != [] && q' == q[1..] {
      ServiceAddsNone(q, x, row, bank, limit);
      assert s + AheadOf(q', x, row) == s;
    } else {
      var r: Request, b: Bank :| r.bank == bank && Arrives(q, r, b, limit, q');
      ArrivalAddsOne(q, r, b, x, row, limit, s);
    }
  }

  lemma ServiceAddsNone(q: seq<Request>, x: Request, row: nat, bank: nat, limit: nat)
    requires ListOk(q, bank, limit) && q != [] && x in q[1..]
    ensures ListOk(q[1..], bank, limit) && AheadOf(q[1..], x, row) <= AheadOf(q, x, row)
    ensures forall n: nat | Used(q, x, row, n) :: Used(q[1..], x, row, n)
  {
    var t := q[1..];
    ServedKeepsList(q, bank, limit);
    forall id | id in AheadOf(t, x, row) ensures id in AheadOf(q, x, row) {
      var i, j :| 0 <= i < j < |t| && t[j] == x && t[i].row == row && t[i].id > x.id && t[i].id == id;
      assert q[i + 1] == t[i] && q[j + 1] == t[j];
    }
    var m := LastOfRow(t, row, |t|);
    if m >= 0 {
      assert q[m + 1] == t[m];
      LastIs(q, row, m + 1);
    }
  }

  lemma LastIs(q: seq<Request>, row: nat, m: int)
    requires 0 <= m < |q| && q[m].row == row && forall i | m < i < |q| :: q[i].row != row
    ensures LastOfRow(q, row, |q|) == m
  {
  }

  /** A new request at k is ahead of x, which is at p, if it goes there. */
  lemma InsertedAhead(q: seq<Request>, k: nat, n: Request, x: Request, row: nat, p: nat)
    requires Ordered(q) && k <= |q| && p < |q| && q[p] == x && x.id < n.id
    ensures AheadOf(InsertAt(q, k, n), x, row) <=
            AheadOf(q, x, row) + if n.row == row && k <= p then {n.id} else {}
  {
    var q' := InsertAt(q, k, n);
    forall id | id in AheadOf(q', x, row) ensures id in AheadOf(q, x, row) || (id == n.id && n.row == row && k <= p) {
      var i, j :| 0 <= i < j < |q'| && q'[j] == x && q'[i].row == row && q'[i].id > x.id && q'[i].id == id;
      var i0, j0 := if i < k then i else i - 1, if j < k then j else j - 1;
      assert q'[j] == q[j0] && j0 == p;
      if i != k {
        assert q'[i] == q[i0] && 0 <= i0 < j0;
      }
    }
  }

  /** It is then the last of its row, and otherwise the last of the row is who it was. */
  lemma LastInserted(q: seq<Request>, k: nat, n: Request, row: nat)
    requires k <= |q| && forall i | k <= i < |q| :: q[i].row != n.row
    ensures var q', m := InsertAt(q, k, n), LastOfRow(q, row, |q|);
      var m' := LastOfRow(q', row, |q'|);
      if n.row == row then m' == k
      else if m < 0 then m' < 0
      else m' == (if m < k then m else m + 1) && q'[m'] == q[m]
  {
    var q', m := InsertAt(q, k, n), LastOfRow(q, row, |q|);
    if n.row == row {
      LastIs(q', row, k);
    } else if m >= 0 {
      assert q'[if m < k then m else m + 1] == q[m];
      LastIs(q', row, if m < k then m else m + 1);
    } else {
      assert forall i | 0 <= i < |q'| && i != k :: q'[i] == q[if i < k then i else i - 1];
    }
  }

  lemma PlaceInserted(q: seq<Request>, k: nat, n: Request, x: Request, p: nat, j: nat)
    requires Ordered(q) && k <= |q| && p < |q| && q[p] == x && x.id < n.id
    requires j <= |q| && InsertAt(q, k, n)[j] == x
    ensures j == if p < k then p else p + 1
  {
    assert j != k && q[if j < k then j else j - 1] == x;
  }

  lemma InsertedUsed(q: seq<Request>, k: nat, n: Request, x: Request, row: nat, p: nat, used: nat)
    requires Ordered(q) && k <= |q| && p < |q| && q[p] == x && x.id < n.id && Used(q, x, row, used)
    requires forall i | k <= i < |q| :: q[i].row != n.row
    ensures Used(InsertAt(q, k, n), x, row, if n.row == row && k <= p then n.rowHitSeq else used)
  {
    LastInserted(q, k, n, row);
    hide Ordered, LastOfRow;
    var q' := InsertAt(q, k, n);
    forall j | 0 <= j < |q'| && q'[j] == x ensures j == if p < k then p else p + 1 {
      PlaceInserted(q, k, n, x, p, j);
    }
  }

  /** A request that goes ahead of somebody has its row's next number. */
  lemma AheadIsNumbered(q: seq<Request>, r: Request, b: Bank, limit: nat)
    requires Place(q, r, b, limit) < |q|
    ensures var k, m := Place(q, r, b, limit), LastOfRow(q, r.row, |q|);
      0 <= m && k == m + 1 && q[m].rowHitSeq < limit && Number(q, r, b, limit) == q[m].rowHitSeq + 1
  {
    PlacedWithItsRow(q, r, b, limit);
    LastIs(q, r.row, Place(q, r, b, limit) - 1);
  }

  /** So it uses up one more of the numbers that are left. */
  lemma OneMoreUsed(q: seq<Request>, r: Request, b: Bank, limit: nat, p: nat, used: nat)
    requires p < |q| && Place(q, r, b, limit) <= p && Used(q, q[p], r.row, used)
    ensures used < Number(q, r, b, limit) <= limit
  {
    AheadIsNumbered(q, r, b, limit);
  }

  lemma UsedLess(q: seq<Request>, x: Request, row: nat, n: nat, m: nat)
    requires Used(q, x, row, n) && m <= n
    ensures Used(q, x, row, m)
  {
  }

  lemma BehindItsRow(q: seq<Request>, r: Request, b: Bank, limit: nat)
    ensures forall i | Place(q, r, b, limit) <= i < |q| :: q[i].row != r.row
  {
    PlacedWithItsRow(q, r, b, limit);
  }

  lemma ArrivalAddsOne(q: seq<Request>, r: Request, b: Bank, x: Request, row: nat, limit: nat, s: set<nat>)
    requires ListOk(q, r.bank, limit) && x in q && forall i | 0 <= i < |q| :: q[i].id < r.id
    requires AheadOf(q, x, row) <= s && |s| <= limit && Used(q, x, row, |s|)
    ensures var q' := Queued(q, r, b, limit);
      && ListOk(q', r.bank, limit) && |s + AheadOf(q', x, row)| <= limit
      && Used(q', x, row, |s + AheadOf(q', x, row)|)
  {
    hide AheadOf, Used, Ordered, InRuns, LastOfRow, Place, Number, InsertAt;
    var k, n, q' := Place(q, r, b, limit), Numbered(q, r, b, limit), Queued(q, r, b, limit);
    QueuedKeepsList(q, r, b, limit);
    BehindItsRow(q, r, b, limit);
    var p :| 0 <= p < |q| && q[p] == x;
    InsertedAhead(q, k, n, x, row, p);
    InsertedUsed(q, k, n, x, row, p, |s|);
    if r.row == row && k <= p {
      OneMoreUsed(q, r, b, limit, p, |s|);
      AtMostOneMore(s, AheadOf(q', x, row), r.id);
      UsedLess(q', x, row, n.rowHitSeq, |s + AheadOf(q', x, row)|);
    } else {
      assert s + AheadOf(q', x, row) == s;
    }
  }

  lemma AtMostOneMore(s: set<nat>, t: set<nat>, x: nat)
    requires t <= s + {x}
    ensures |s + t| <= |s| + 1
  {
    if x in s || x !in t {
      assert s + t == s;
    } else {
      assert s + t == s + {x};
    }
  }

  // ---- runs of column commands of one row

  /** A bank with one list: the list, the bank, the requests served so far, and for each of them whether an older one
      waited in the list at the time. */
  datatype Lane = Lane(list: seq<Request>, bank: Bank, served: seq<Request>, pressed: seq<bool>)

  ghost predicate OlderWaits(q: seq<Request>) {
    exists j :: 0 < j < |q| && q[j].id < q[0].id
  }

  /** The front of the list is issued. */
  ghost predicate Issues(s: Lane, u: Lane, p: Params, d: Dram, curCycle: nat, window: nat, keepOpen: bool) {
    && s.list != [] && u.list == s.list[1..] && u.served == s.served + [s.list[0]]
    && u.pressed == s.pressed + [OlderWaits(s.list)]
    && d.minRespCycle > p.tCL && u.bank == BankAfter(p, d, s.bank, s.list[0], curCycle, window, keepOpen)
  }

  /** All banks are refreshed, this one too. */
  ghost predicate Refreshes(s: Lane, u: Lane, p: Params, d: Dram, memCycle: nat, b: nat) {
    && p.tRFC >= p.tRP && b < |d.banks| && s.bank == d.banks[b] && u == s.(bank := Refreshed(p, d, memCycle).banks[b])
  }

  /** An arrival, a service, or a refresh. */
  ghost predicate LaneStep(s: Lane, u: Lane, bank: nat, limit: nat) {
    || (u == s.(list := u.list) && exists r: Request :: r.bank == bank && Arrives(s.list, r, s.bank, limit, u.list))
    || (exists p: Params, d: Dram, cur: nat, window: nat, keepOpen: bool :: Issues(s, u, p, d, cur, window, keepOpen))
    || (exists p: Params, d: Dram, memCycle: nat, b: nat :: Refreshes(s, u, p, d, memCycle, b))
  }

  /** If the head of the list is numbered, it continues the run of the request served last. */
  ghost predicate Linked(served: seq<Request>, list: seq<Request>) {
    served != [] && list != [] && list[0].rowHitSeq > 0 ==>
      var r := served[|served| - 1]; r.row == list[0].row && r.rowHitSeq + 1 == list[0].rowHitSeq
  }

  /** Every numbered request continues the run of the one before it, served or not; and the bank knows the last one. */
  ghost predicate Continues(s: Lane, bank: nat, limit: nat) {
    && ListOk(s.list, bank, limit) && InRuns(s.served) && Linked(s.served, s.list) && |s.pressed| == |s.served|
    && (forall i | 0 <= i < |s.served| ::
          s.served[i].rowHitSeq <= limit && (s.pressed[i] ==> s.served[i].rowHitSeq > 0))
    && (s.served != [] ==>
          var r := s.served[|s.served| - 1]; s.bank.openRow == r.row && s.bank.curRowHits == r.rowHitSeq)
  }

  lemma ArrivalContinues(s: Lane, u: Lane, r: Request, limit: nat)
    requires Continues(s, r.bank, limit) && u == s.(list := u.list) && Arrives(s.list, r, s.bank, limit, u.list)
    ensures Continues(u, r.bank, limit)
  {
    QueuedKeepsList(s.list, r, s.bank, limit);
    PlacedWithItsRow(s.list, r, s.bank, limit);
    hide ListOk, InRuns;
  }

  lemma ServiceContinues(s: Lane, u: Lane, p: Params, d: Dram, cur: nat, window: nat, keepOpen: bool, bank: nat,
                         limit: nat)
    requires Continues(s, bank, limit) && Issues(s, u, p, d, cur, window, keepOpen)
    ensures Continues(u, bank, limit)
  {
    ServedKeepsList(s.list, bank, limit);
    assert |s.list| > 1 ==> Follows(s.list, 1);
    forall i: nat {:trigger Follows(u.served, i)} | 1 <= i < |u.served| ensures Follows(u.served, i) {
      assert i < |s.served| ==> Follows(s.served, i);
    }
  }

  /** The lane went through these states; at first nothing had been served. */
  ghost predicate LaneRun(ss: seq<Lane>, bank: nat, limit: nat) {
    && ss != [] && ss[0].served == [] && ss[0].pressed == [] && ListOk(ss[0].list, bank, limit)
    && forall k | 0 < k < |ss| :: LaneStep(ss[k - 1], ss[k], bank, limit)
  }

  lemma LaneRunBefore(ss: seq<Lane>, bank: nat, limit: nat)
    requires LaneRun(ss, bank, limit) && |ss| > 1
    ensures LaneRun(ss[..|ss| - 1], bank, limit) && LaneStep(ss[|ss| - 2], ss[|ss| - 1], bank, limit)
  {
    hide LaneStep, ListOk;
    var before := ss[..|ss| - 1];
    forall k | 0 < k < |before| ensures LaneStep(before[k - 1], before[k], bank, limit) {
      assert before[k - 1] == ss[k - 1] && before[k] == ss[k];
    }
  }

  lemma {:induction false} LanesContinue(ss: seq<Lane>, bank: nat, limit: nat)
    requires LaneRun(ss, bank, limit)
    ensures Continues(ss[|ss| - 1], bank, limit)
  {
    var n := |ss| - 1;
    if n == 0 {
      assert InRuns(ss[0].served);
    } else {
      LaneRunBefore(ss, bank, limit);
      hide LaneRun, LaneStep, Continues, ListOk;
      var before := ss[..n];
      LanesContinue(before, bank, limit);
      assert before[n - 1] == ss[n - 1];
      StepContinues(ss[n - 1], ss[n], bank, limit);
    }
  }

  lemma StepContinues(s: Lane, u: Lane, bank: nat, limit: nat)
    requires Continues(s, bank, limit) && LaneStep(s, u, bank, limit)
    ensures Continues(u, bank, limit)
  {
    if p: Params, d: Dram, cur: nat, window: nat, keepOpen: bool :| Issues(s, u, p, d, cur, window, keepOpen) {
      ServiceContinues(s, u, p, d, cur, window, keepOpen, bank, limit);
    } else if p: Params, d: Dram, memCycle: nat, b: nat :| Refreshes(s, u, p, d, memCycle, b) {
      assert u == s.(bank := u.bank) && u.bank.openRow == s.bank.openRow && u.bank.curRowHits == s.bank.curRowHits;
    } else {
      var r: Request :| r.bank == bank && Arrives(s.list, r, s.bank, limit, u.list);
      ArrivalContinues(s, u, r, limit);
    }
  }

  /** While older requests wait in the list, at most limit + 1 commands go to one row in a run: after a first command,
      n more for requests that are each younger than one that waits are all for its row, and n is within the limit. */
  lemma RowRunsAreShort(ss: seq<Lane>, u: Lane, bank: nat, limit: nat, i: nat, n: nat)
    requires LaneRun(ss, bank, limit) && u == ss[|ss| - 1]
    requires i + n < |u.served| == |u.pressed| && forall j | i < j <= i + n :: u.pressed[j]
    ensures n <= limit && forall j | i <= j <= i + n :: u.served[j].row == u.served[i].row
  {
    LanesContinue(ss, bank, limit);
    RunCounts(u.served, limit, i, n);
    forall j | i <= j <= i + n ensures u.served[j].row == u.served[i].row {
      RunCounts(u.served, limit, i, j - i);
    }
  }
}
