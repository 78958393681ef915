/** The FR-FCFS order of src/ddr_mem.cpp: each bank's list, into which requests go next to others of their row, and
    the queue of arrivals that holds the same requests. */
module DdrQueues {
  import opened DdrTiming

  /** The last request of the row among the first k, or -1. */
  function LastOfRow(q: seq<Request>, row: nat, k: nat): (m: int)
    requires k <= |q|
    ensures -1 <= m < k && (m >= 0 ==> q[m].row == row) && forall i | m < i < k :: q[i].row != row
  {
    if k == 0 then -1 else if q[k - 1].row == row then k - 1 else LastOfRow(q, row, k - 1)
  }

  /** Where the request goes in its bank's list. */
  function Place(q: seq<Request>, r: Request, b: Bank, limit: nat): (k: nat)
    ensures k <= |q|
  {
    var m := LastOfRow(q, r.row, |q|);
    if m >= 0 && q[m].rowHitSeq < limit then m + 1 else |q|
  }

  /** Its number in the run of row hits: one more than the request before it, one more than the hits that the open
      row has served already, or 0 if it starts a run. */
  function Number(q: seq<Request>, r: Request, b: Bank, limit: nat): nat {
    var m := LastOfRow(q, r.row, |q|);
    if m >= 0 then (if q[m].rowHitSeq < limit then q[m].rowHitSeq + 1 else 0)
    else if b.open && r.row == b.openRow && b.curRowHits < limit && q == [] then b.curRowHits + 1
    else 0
  }

  function Numbered(q: seq<Request>, r: Request, b: Bank, limit: nat): Request {
    r.(rowHitSeq := Number(q, r, b, limit))
  }

  function InsertAt(q: seq<Request>, k: nat, r: Request): (q': seq<Request>)
    requires k <= |q|
    ensures |q'| == |q| + 1 && q'[k] == r
    ensures forall i | 0 <= i < k :: q'[i] == q[i]
    ensures forall i | k < i < |q'| :: q'[i] == q[i - 1]
  {
    q[..k] + [r] + q[k..]
  }

  function Queued(q: seq<Request>, r: Request, b: Bank, limit: nat): seq<Request> {
    InsertAt(q, Place(q, r, b, limit), Numbered(q, r, b, limit))
  }

  /** A new request goes right behind the last request of its row, with the next number, if that one's number is below
      the limit. Otherwise it goes to the back: as a hit on the open row if it finds an empty list, and the row's hits
      so far are below the limit, or else with number 0. */
  ghost predicate Placed(q: seq<Request>, r: Request, b: Bank, limit: nat, k: nat, number: nat) {
    && k <= |q| && (forall i | k <= i < |q| :: q[i].row != r.row)
    && if k > 0 && q[k - 1].row == r.row && q[k - 1].rowHitSeq < limit then number == q[k - 1].rowHitSeq + 1
       else
         && k == |q|
         && (forall i | 0 <= i < |q| && q[i].row == r.row && q[i].rowHitSeq < limit ::
               exists j :: i < j < |q| && q[j].row == r.row)
         && number == if q == [] && b.open && r.row == b.openRow && b.curRowHits < limit then b.curRowHits + 1 else 0
  }

  lemma PlacedWithItsRow(q: seq<Request>, r: Request, b: Bank, limit: nat)
    ensures Placed(q, r, b, limit, Place(q, r, b, limit), Number(q, r, b, limit))
  {
    var m := LastOfRow(q, r.row, |q|);
    assert forall i | 0 <= i < |q| && q[i].row == r.row && i != m :: i < m && q[m].row == r.row;
  }

  /** Within a row, requests keep their order of arrival, and a request ahead of an older one is numbered. */
  ghost predicate Ordered(q: seq<Request>) {
    forall i, j | 0 <= i < j < |q| ::
      && q[i].id != q[j].id && (q[i].row == q[j].row ==> q[i].id < q[j].id)
      && (q[i].id > q[j].id ==> q[i].rowHitSeq > 0)
  }

  /** Every request but the first that continues a run follows its predecessor there. */
  ghost predicate InRuns(q: seq<Request>) {
    forall i: nat {:trigger Follows(q, i)} | 1 <= i < |q| :: Follows(q, i)
  }

  /** The requests of one bank are in order and in runs, and no run is numbered beyond the limit. */
  ghost predicate ListOk(q: seq<Request>, bank: nat, limit: nat) {
    (forall i | 0 <= i < |q| :: q[i].bank == bank && q[i].rowHitSeq <= limit) && Ordered(q) && InRuns(q)
  }

  ghost predicate Follows(q: seq<Request>, i: nat)
    requires 1 <= i < |q|
  {
    q[i].rowHitSeq > 0 ==> q[i - 1].row == q[i].row && q[i - 1].rowHitSeq + 1 == q[i].rowHitSeq
  }

  /** Where a new request may go: behind the last of its row, and ahead of others only with a number. */
  ghost predicate Fits(q: seq<Request>, k: nat, n: Request) {
    && k <= |q| && (forall x | 0 <= x < |q| :: q[x].id < n.id) && (forall x | k <= x < |q| :: q[x].row != n.row)
    && (k == 0 ==> q == []) && (k < |q| ==> n.rowHitSeq > 0 && q[k - 1].row == n.row)
    && (k > 0 && n.rowHitSeq > 0 ==> q[k - 1].row == n.row && q[k - 1].rowHitSeq + 1 == n.rowHitSeq)
  }

  /** A new request leaves the others in order, and is in order itself. */
  lemma InsertedInOrder(q: seq<Request>, k: nat, n: Request)
    requires Ordered(q) && Fits(q, k, n)
    ensures Ordered(InsertAt(q, k, n))
  {
    var q' := InsertAt(q, k, n);
    forall i, j | 0 <= i < j < |q'|
      ensures q'[i].id != q'[j].id && (q'[i].row == q'[j].row ==> q'[i].id < q'[j].id)
      ensures q'[i].id > q'[j].id ==> q'[i].rowHitSeq > 0
    {
      var i0, j0 := if i < k then i else i - 1, if j < k then j else j - 1;
      if i != k && j != k {
        assert q'[i] == q[i0] && q'[j] == q[j0];
      }
    }
  }

  lemma InsertedInRuns(q: seq<Request>, k: nat, n: Request)
    requires InRuns(q) && Fits(q, k, n)
    ensures InRuns(InsertAt(q, k, n))
  {
    var q' := InsertAt(q, k, n);
    forall i: nat {:trigger Follows(q', i)} | 1 <= i < |q'| ensures Follows(q', i) {
      if i < k {
        assert Follows(q, i);
      } else if i > k + 1 {
        assert Follows(q, i - 1);
      } else if i == k + 1 && 0 < k {
        assert k == |q| || Follows(q, k);
      }
    }
  }

  /** Queueing a new request keeps the list in order, moves nobody else past anybody, and puts the request ahead of
      other rows only right behind its own. */
  lemma QueuedKeepsList(q: seq<Request>, r: Request, b: Bank, limit: nat)
    requires ListOk(q, r.bank, limit) && forall i | 0 <= i < |q| :: q[i].id < r.id
    ensures ListOk(Queued(q, r, b, limit), r.bank, limit)
    ensures var k := Place(q, r, b, limit); k < |q| ==> k > 0 && q[k - 1].row == r.row
  {
    var k, n := Place(q, r, b, limit), Numbered(q, r, b, limit);
    assert Fits(q, k, n);
    hide Ordered, InRuns;
    InsertedInOrder(q, k, n);
    InsertedInRuns(q, k, n);
  }

  /** Serving the front keeps the list in order. */
  lemma ServedKeepsList(q: seq<Request>, bank: nat, limit: nat)
    requires ListOk(q, bank, limit) && q != []
    ensures ListOk(q[1..], bank, limit)
  {
    var t := q[1..];
    forall i: nat {:trigger Follows(t, i)} | 1 <= i < |t| ensures Follows(t, i) {
      assert Follows(q, i + 1);
    }
  }

  /** In a run of row hits, each following the last, the numbers count up. */
  lemma {:induction false} RunCounts(q: seq<Request>, limit: nat, i: nat, n: nat)
    requires InRuns(q) && i + n < |q| && q[i + n].rowHitSeq <= limit && forall j | i < j <= i + n :: q[j].rowHitSeq > 0
    ensures q[i + n].rowHitSeq == q[i].rowHitSeq + n && n <= limit && q[i + n].row == q[i].row
    decreases n
  {
    if n > 0 {
      assert Follows(q, i + n);
      RunCounts(q, limit, i, n - 1);
    }
  }

  /** A run of requests that stand ahead of an older one has at most as many as the limit says, all of one row, and it
      continues the run of the request before them: other rows get their turn. */
  lemma RunsAreBounded(q: seq<Request>, bank: nat, limit: nat, i: nat, n: nat, x: nat)
    requires ListOk(q, bank, limit) && i + n < x < |q| && forall j | i < j <= i + n :: q[x].id < q[j].id
    ensures q[i + n].rowHitSeq == q[i].rowHitSeq + n && n <= limit && q[i + n].row == q[i].row
  {
    RunCounts(q, limit, i, n);
  }

  // ---- the queue of arrivals

  ghost predicate Within(q: seq<Request>, x: Request) {
    exists i :: 0 <= i < |q| && q[i] == x
  }

  function RemoveAt(q: seq<Request>, k: nat): (q': seq<Request>)
    requires k < |q|
    ensures |q'| == |q| - 1
    ensures forall i | 0 <= i < k :: q'[i] == q[i]
    ensures forall i | k <= i < |q'| :: q'[i] == q[i + 1]
  {
    q[..k] + q[k + 1..]
  }

  lemma WithinInserted(q: seq<Request>, k: nat, r: Request, x: Request)
    requires k <= |q|
    ensures Within(InsertAt(q, k, r), x) <==> Within(q, x) || x == r
  {
    var q' := InsertAt(q, k, r);
    if Within(q, x) {
      var i :| 0 <= i < |q| && q[i] == x;
      assert q'[if i < k then i else i + 1] == x;
    }
    if Within(q', x) {
      var i :| 0 <= i < |q'| && q'[i] == x;
      assert i == k || q[if i < k then i else i - 1] == x;
    }
    assert q'[k] == r;
  }

  lemma WithinRemoved(q: seq<Request>, k: nat, x: Request)
    requires k < |q| && forall i, j | 0 <= i < j < |q| :: q[i].id != q[j].id
    ensures Within(RemoveAt(q, k), x) <==> Within(q, x) && x != q[k]
  {
    var q' := RemoveAt(q, k);
    if Within(q, x) && x != q[k] {
      var i :| 0 <= i < |q| && q[i] == x;
      assert q'[if i < k then i else i - 1] == x;
    }
    if Within(q', x) {
      var i :| 0 <= i < |q'| && q'[i] == x;
      var j := if i < k then i else i + 1;
      assert q[j] == x && (if j < k then q[j].id != q[k].id else q[k].id != q[j].id);
    }
  }

  /** The arrivals are in order, and they are just the requests of the banks' lists. */
  ghost predicate Agree(queue: seq<Request>, lists: seq<seq<Request>>, nextId: nat) {
    && (forall i, j | 0 <= i < j < |queue| :: queue[i].id < queue[j].id)
    && (forall x | Within(queue, x) :: x.id < nextId && x.bank < |lists| && Within(lists[x.bank], x))
    && (forall b: nat, x | b < |lists| && Within(lists[b], x) :: x.bank == b && Within(queue, x))
  }

  ghost predicate ListsOk(lists: seq<seq<Request>>, limit: nat) {
    forall b: nat | b < |lists| :: ListOk(lists[b], b, limit)
  }

  lemma ArrivalKeepsAgree(queue: seq<Request>, lists: seq<seq<Request>>, nextId: nat, k: nat, n: Request)
    requires Agree(queue, lists, nextId) && n.bank < |lists| && n.id == nextId && k <= |lists[n.bank]|
    ensures Agree(queue + [n], lists[n.bank := InsertAt(lists[n.bank], k, n)], nextId + 1)
  {
    var lists', queue' := lists[n.bank := InsertAt(lists[n.bank], k, n)], queue + [n];
    assert queue' == InsertAt(queue, |queue|, n);
    forall i | 0 <= i < |queue| ensures queue[i].id < nextId {
      assert Within(queue, queue[i]);
    }
    forall x ensures Within(queue', x) <==> Within(queue, x) || x == n {
      WithinInserted(queue, |queue|, n, x);
    }
    forall x ensures Within(lists'[n.bank], x) <==> Within(lists[n.bank], x) || x == n {
      WithinInserted(lists[n.bank], k, n, x);
    }
  }

  lemma ArrivalKeepsLists(queue: seq<Request>, lists: seq<seq<Request>>, nextId: nat, r: Request, b: Bank, limit: nat)
    requires Agree(queue, lists, nextId) && ListsOk(lists, limit) && r.bank < |lists| && r.id == nextId
    ensures ListsOk(lists[r.bank := Queued(lists[r.bank], r, b, limit)], limit)
  {
    var q := lists[r.bank];
    forall i | 0 <= i < |q| ensures q[i].id < r.id {
      assert Within(q, q[i]);
    }
    assert ListOk(q, r.bank, limit);
    QueuedKeepsList(q, r, b, limit);
    var lists' := lists[r.bank := Queued(q, r, b, limit)];
    forall c: nat | c < |lists'| ensures ListOk(lists'[c], c, limit) {
      assert ListOk(lists[c], c, limit);
    }
  }

  /** The front request of a bank leaves its list and the queue. */
  lemma ServiceKeepsAgree(queue: seq<Request>, lists: seq<seq<Request>>, nextId: nat, k: nat, limit: nat)
    requires Agree(queue, lists, nextId) && ListsOk(lists, limit) && k < |queue|
    requires queue[k].bank < |lists| && lists[queue[k].bank] != [] && lists[queue[k].bank][0] == queue[k]
    ensures Agree(RemoveAt(queue, k), lists[queue[k].bank := RemoveAt(lists[queue[k].bank], 0)], nextId)
  {
    var r := queue[k];
    var q := lists[r.bank];
    var lists', queue' := lists[r.bank := RemoveAt(q, 0)], RemoveAt(queue, k);
    assert ListOk(q, r.bank, limit);
    forall x ensures Within(queue', x) <==> Within(queue, x) && x != r {
      WithinRemoved(queue, k, x);
    }
    forall x ensures Within(lists'[r.bank], x) <==> Within(q, x) && x != r {
      WithinRemoved(q, 0, x);
    }
    forall i, j | 0 <= i < j < |queue'| ensures queue'[i].id < queue'[j].id {
      assert queue'[i] == queue[if i < k then i else i + 1] && queue'[j] == queue[if j < k then j else j + 1];
    }
  }

  lemma ServiceKeepsLists(lists: seq<seq<Request>>, bank: nat, limit: nat)
    requires ListsOk(lists, limit) && bank < |lists| && lists[bank] != []
    ensures ListsOk(lists[bank := RemoveAt(lists[bank], 0)], limit)
  {
    var lists' := lists[bank := RemoveAt(lists[bank], 0)];
    forall c: nat | c < |lists'| ensures ListOk(lists'[c], c, limit) {
      assert ListOk(lists[c], c, limit);
      if c == bank {
        ServedKeepsList(lists[bank], bank, limit);
        assert RemoveAt(lists[bank], 0) == lists[bank][1..];
      }
    }
  }

  ghost predicate First(lists: seq<seq<Request>>, x: Request) {
    x.bank < |lists| && lists[x.bank] != [] && lists[x.bank][0] == x
  }

  lemma QueuedIsListed(queue: seq<Request>, lists: seq<seq<Request>>, nextId: nat, i: nat)
    requires Agree(queue, lists, nextId) && i < |queue|
    ensures queue[i].bank < |lists| && lists[queue[i].bank] != []
  {
    assert Within(queue, queue[i]) && Within(lists[queue[i].bank], queue[i]);
  }

  /** While anything is queued, some queued request is the first of its bank. */
  lemma SomeFirst(queue: seq<Request>, lists: seq<seq<Request>>, nextId: nat) returns (i: nat)
    requires Agree(queue, lists, nextId) && queue != []
    ensures i < |queue| && First(lists, queue[i])
  {
    assert Within(queue, queue[0]);
    var x := lists[queue[0].bank][0];
    assert Within(lists[queue[0].bank], x);
    i :| 0 <= i < |queue| && queue[i] == x;
  }

  /** One of the two sides of the controller, reads or writes: its queue, and its list of every bank. */
  datatype Side = Side(queue: seq<Request>, lists: seq<seq<Request>>)

  ghost predicate SideOk(s: Side, nextId: nat, limit: nat, depth: nat, banks: nat) {
    Agree(s.queue, s.lists, nextId) && ListsOk(s.lists, limit) && |s.queue| <= depth && |s.lists| == banks
  }

  lemma SideSizes(s: Side, nextId: nat, limit: nat, depth: nat, banks: nat)
    requires SideOk(s, nextId, limit, depth, banks)
    ensures |s.queue| <= depth && |s.lists| == banks
  {
  }

  /** A new request joins the queue at its end, and its bank's list in FR-FCFS order. */
  function Joined(s: Side, r: Request, b: Bank, limit: nat): Side
    requires r.bank < |s.lists|
  {
    Side(s.queue + [Numbered(s.lists[r.bank], r, b, limit)],
         s.lists[r.bank := Queued(s.lists[r.bank], r, b, limit)])
  }

  /** Request k of the queue, the first of its bank's list, leaves both. */
  function Left(s: Side, k: nat): Side
    requires k < |s.queue| && First(s.lists, s.queue[k])
  {
    var bank := s.queue[k].bank;
    Side(RemoveAt(s.queue, k), s.lists[bank := RemoveAt(s.lists[bank], 0)])
  }

  lemma JoinedKeepsSide(s: Side, nextId: nat, limit: nat, depth: nat, banks: nat, r: Request, b: Bank)
    requires SideOk(s, nextId, limit, depth, banks) && |s.queue| < depth && r.bank < banks && r.id == nextId
    ensures SideOk(Joined(s, r, b, limit), nextId + 1, limit, depth, banks)
    ensures var q := s.lists[r.bank];
      && (First(Joined(s, r, b, limit).lists, Numbered(q, r, b, limit)) <==> Place(q, r, b, limit) == 0)
      && (Place(q, r, b, limit) > 0 ==> s.queue != [])
  {
    var q, n, k := s.lists[r.bank], Numbered(s.lists[r.bank], r, b, limit), Place(s.lists[r.bank], r, b, limit);
    ArrivalKeepsAgree(s.queue, s.lists, nextId, k, n);
    ArrivalKeepsLists(s.queue, s.lists, nextId, r, b, limit);
    if k > 0 {
      assert Within(q, q[0]) && Within(s.queue, q[0]);
    }
  }

  lemma SideLater(s: Side, nextId: nat, limit: nat, depth: nat, banks: nat)
    requires SideOk(s, nextId, limit, depth, banks)
    ensures SideOk(s, nextId + 1, limit, depth, banks)
  {
  }

  lemma LeftKeepsSide(s: Side, nextId: nat, limit: nat, depth: nat, banks: nat, k: nat)
    requires SideOk(s, nextId, limit, depth, banks) && k < |s.queue| && First(s.lists, s.queue[k])
    ensures SideOk(Left(s, k), nextId, limit, depth, banks)
  {
    ServiceKeepsAgree(s.queue, s.lists, nextId, k, limit);
    ServiceKeepsLists(s.lists, s.queue[k].bank, limit);
  }

  // ---- which accesses there are

  /** What a request asks for, however it is numbered. */
  datatype Access = Access(bank: nat, row: nat, write: bool)

  function Accesses(q: seq<Request>): multiset<Access> {
    if q == [] then multiset{}
    else
      var r := q[|q| - 1];
      Accesses(q[..|q| - 1]) + multiset{Access(r.bank, r.row, r.write)}
  }

  /** The accesses that column commands were issued for. */
  function Commanded(cmds: seq<Cmd>): multiset<Access> {
    if cmds == [] then multiset{}
    else Commanded(cmds[1..]) + multiset{Access(cmds[0].bank, cmds[0].row, cmds[0].write)}
  }

  lemma CommandedLogged(p: Params, d: Dram, h: History, rank: nat, r: Request, curCycle: nat)
    requires d.minRespCycle > p.tCL && r.bank < |d.banks| && rank < |d.windows| && |d.windows[rank]| > 0
    requires |h.acts| == |d.banks| && |h.rankActs| == |d.windows|
    ensures Commanded(Logged(p, d, h, rank, r, curCycle).cmds) ==
            Commanded(h.cmds) + multiset{Access(r.bank, r.row, r.write)}
  {
    var g := Logged(p, d, h, rank, r, curCycle);
    assert g.cmds[1..] == h.cmds;
  }

  lemma AccessesAppended(q: seq<Request>, r: Request)
    ensures Accesses(q + [r]) == Accesses(q) + multiset{Access(r.bank, r.row, r.write)}
  {
    assert (q + [r])[..|q|] == q;
  }

  lemma RemovedBeforeLast(q: seq<Request>, k: nat)
    requires k < |q| - 1
    ensures RemoveAt(q, k) == RemoveAt(q[..|q| - 1], k) + [q[|q| - 1]]
  {
  }

  lemma {:induction false} AccessesRemoved(q: seq<Request>, k: nat)
    requires k < |q|
    ensures Accesses(q) == Accesses(RemoveAt(q, k)) + multiset{Access(q[k].bank, q[k].row, q[k].write)}
  {
    var n := |q| - 1;
    if k == n {
      assert RemoveAt(q, k) == q[..n];
    } else {
      AccessesRemoved(q[..n], k);
      RemovedBeforeLast(q, k);
      AccessesAppended(RemoveAt(q[..n], k), q[n]);
      hide RemoveAt;
    }
  }

  /** The accesses that wait, on either side or in the overflow. */
  function Held(rd: Side, wr: Side, overflow: seq<Request>): multiset<Access> {
    Accesses(rd.queue) + Accesses(wr.queue) + Accesses(overflow)
  }

  lemma HeldOverflow(rd: Side, wr: Side, overflow: seq<Request>, r: Request)
    ensures Held(rd, wr, overflow + [r]) == Held(rd, wr, overflow) + multiset{Access(r.bank, r.row, r.write)}
  {
    AccessesAppended(overflow, r);
    hide Accesses;
  }
}
