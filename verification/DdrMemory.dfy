/** The DDR controller of src/ddr_mem.{h,cpp}: request queues, the FR-FCFS scheduler, refreshes, and the events that
    wake it up. */
module DdrMemory {
  import opened DdrClock
  import opened DdrQueues
  import opened DdrTiming
  import opened Options
  import ActWindow

  datatype SchedState = IDLE | QUEUED | RUNNING | ANNULLED

  /** A scheduling event and the system cycle that it is queued for. */
  datatype SchedEvent = SchedEvent(state: SchedState, cycle: nat)

  /** Is the next wake-up, if any, later than this? */
  predicate Later(next: Option<nat>, cycle: nat) {
    next == None || next.value > cycle
  }

  /** A wake-up at this cycle, unless there is one no later. */
  function NoLaterThan(next: Option<nat>, cycle: nat): Option<nat> {
    if Later(next, cycle) then Some(cycle) else next
  }

  /** The side without request k, if that is where it was served. */
  ghost function Without(s: Side, here: bool, k: int): Side {
    if here && 0 <= k < |s.queue| && First(s.lists, s.queue[k]) then Left(s, k) else s
  }

  /** Nothing has been issued yet. */
  function IdleDram(p: Params, numRanks: nat, numBanks: nat): (d: Dram)
    ensures |d.banks| == numBanks && forall b | 0 <= b < numBanks :: d.banks[b] == Bank(0, false, 0, 0, 0, 0)
    ensures |d.windows| == numRanks && forall r | 0 <= r < numRanks :: d.windows[r] == [0, 0, 0, 0]
  {
    Dram(seq(numBanks, _ => Bank(0, false, 0, 0, 0, 0)), seq(numRanks, _ => [0, 0, 0, 0]), p.tCL + p.tBL + 1, false)
  }

  function IdleSide(numBanks: nat): (s: Side)
    ensures s.queue == [] && |s.lists| == numBanks && forall b | 0 <= b < numBanks :: s.lists[b] == []
  {
    Side([], seq(numBanks, _ => []))
  }

  /** A request from the overflow queue gets its number, and a new arrival cycle. */
  function Entering(o: Request, id: nat, memCycle: nat): Request {
    Request(id, o.bank, o.row, o.write, 0, memCycle)
  }

  class Controller {
    const p: Params
    const clock: Clock
    const rankOf: nat -> nat
    const queueDepth: nat
    const rowHitLimit: nat
    const deferredWrites: bool
    const closedPage: bool
    const controllerSysLatency: nat

    var dram: Dram                     // banks, rankActWindows, minRespCycle, lastCmdWasWrite
    var rd: Side                       // rdQueue, and rdReqs of every bank
    var wr: Side                       // wrQueue, and wrReqs of every bank
    var overflowQueue: seq<Request>
    var nextId: nat

    var nextSchedCycle: Option<nat>
    var nextSchedEvent: Option<nat>
    var events: seq<SchedEvent>        // all scheduling events ever allocated
    var eventFreelist: seq<nat>

    ghost var history: History
    ghost var now: nat                 // the system cycle of the last call

    ghost predicate TimingOk()
      reads `dram, `history
    {
      clock.Ok() && queueDepth > 0 && Inv(p, dram, history) && forall b: nat :: rankOf(b) < |dram.windows|
    }

    ghost predicate QueuesOk()
      reads `dram, `rd, `wr, `nextId
    {
      && SideOk(rd, nextId, rowHitLimit, queueDepth, |dram.banks|)
      && SideOk(wr, nextId, rowHitLimit, queueDepth, |dram.banks|)
    }

    ghost predicate OverflowOk()
      reads `dram, `overflowQueue
    {
      forall i | 0 <= i < |overflowQueue| :: overflowQueue[i].bank < |dram.banks|
    }

    /** Requests overflow only while others are queued. */
    ghost predicate WaitsOk()
      reads `dram, `history, `rd, `wr, `nextId, `overflowQueue
    {
      TimingOk() && QueuesOk() && OverflowOk() && (overflowQueue != [] ==> rd.queue != [] || wr.queue != [])
    }

    /** At most one event is live: the one for the next scheduled cycle, which it will hit exactly. */
    ghost predicate EventsOk()
      reads `nextSchedCycle, `nextSchedEvent, `events, `eventFreelist, `now
    {
      && clock.Ok() && nextSchedCycle.Some? == nextSchedEvent.Some?
      && (nextSchedEvent.Some? ==> Live(nextSchedEvent.value, nextSchedCycle.value))
      && (forall e: nat | e < |events| && events[e].state == QUEUED :: nextSchedEvent == Some(e))
      && (forall e: nat | e < |events| :: events[e].state != RUNNING)
      && FreeOk()
    }

    ghost predicate Live(e: nat, memCycle: nat)
      requires clock.Ok()
      reads `events, `now
    {
      e < |events| && events[e].state == QUEUED && clock.SysToMem(events[e].cycle) == memCycle && now <= events[e].cycle
    }

    ghost predicate FreeOk()
      reads `events, `eventFreelist
    {
      && (forall i | 0 <= i < |eventFreelist| :: eventFreelist[i] < |events| && events[eventFreelist[i]].state == IDLE)
      && (forall i, j | 0 <= i < j < |eventFreelist| :: eventFreelist[i] != eventFreelist[j])
    }

    /** No request is stranded: while any waits, in a queue or in the overflow, a wake-up is on its way. */
    ghost predicate Valid()
      reads this
    {
      && WaitsOk() && EventsOk()
      && (rd.queue != [] || wr.queue != [] ==> nextSchedEvent.Some?)
    }

    /** While any request waits, exactly one event is queued, no earlier than the last call, and it will find the
        controller at just the memory cycle that it is waiting for. */
    lemma WaitingRequestsAreWokenUp() returns (e: nat)
      requires Valid() && Waiting() > 0
      ensures e < |events| && events[e].state == QUEUED && now <= events[e].cycle
      ensures nextSchedCycle == Some(clock.SysToMem(events[e].cycle))
      ensures forall f: nat | f < |events| && events[f].state == QUEUED :: f == e
    {
      e := nextSchedEvent.value;
      assert Live(e, nextSchedCycle.value);
    }

    lemma LiveIsNotPast()
      requires Valid() && nextSchedEvent.Some?
      ensures nextSchedEvent.value < |events| && now <= events[nextSchedEvent.value].cycle
    {
      assert Live(nextSchedEvent.value, nextSchedCycle.value);
    }

    ghost function Waiting(): nat
      reads this
    {
      |rd.queue| + |wr.queue| + |overflowQueue|
    }

    constructor (p: Params, clock: Clock, numRanks: nat, numBanks: nat, rankOf: nat -> nat, queueDepth: nat,
                 rowHitLimit: nat, deferredWrites: bool, closedPage: bool, controllerSysLatency: nat)
      requires p.Ok() && clock.Ok() && queueDepth > 0 && forall b: nat :: rankOf(b) < numRanks
      ensures Valid() && Waiting() == 0 && history.cmds == [] && now == 0
      ensures nextSchedCycle == None && nextSchedEvent == None
      ensures this.p == p && this.clock == clock && this.rankOf == rankOf && this.queueDepth == queueDepth
      ensures this.rowHitLimit == rowHitLimit && this.deferredWrites == deferredWrites && this.closedPage == closedPage
      ensures dram == IdleDram(p, numRanks, numBanks) && rd == wr == IdleSide(numBanks)
    {
      this.p, this.clock, this.rankOf, this.queueDepth := p, clock, rankOf, queueDepth;
      this.rowHitLimit, this.deferredWrites, this.closedPage := rowHitLimit, deferredWrites, closedPage;
      this.controllerSysLatency := controllerSysLatency;
      dram := IdleDram(p, numRanks, numBanks);
      rd, wr := IdleSide(numBanks), IdleSide(numBanks);
      overflowQueue, nextId := [], 0;
      nextSchedCycle, nextSchedEvent, events, eventFreelist := None, None, [], [];
      history := History([], seq(numBanks, _ => []), seq(numRanks, _ => []), []);
      now := 0;
    }

    /** A request for this row joined the reads, or the writes if it is one and writes are deferred. */
    ghost predicate Entered(rd0: Side, wr0: Side, r: Request)
      reads `dram, `rd, `wr
    {
      && r.bank < |rd0.lists| == |wr0.lists| == |dram.banks|
      && (if deferredWrites && r.write then rd == rd0 && wr == Joined(wr0, r, dram.banks[r.bank], rowHitLimit)
          else wr == wr0 && rd == Joined(rd0, r, dram.banks[r.bank], rowHitLimit))
    }

    /** It goes to the head of its bank's list. */
    ghost predicate GoesFirst(rd0: Side, wr0: Side, r: Request)
      reads `dram
    {
      var s := if deferredWrites && r.write then wr0 else rd0;
      r.bank < |s.lists| && r.bank < |dram.banks| && Place(s.lists[r.bank], r, dram.banks[r.bank], rowHitLimit) == 0
    }

    /** Every access that ever arrived: issued once, or waiting. */
    ghost function Arrived(): multiset<Access>
      reads `history, `rd, `wr, `overflowQueue
    {
      Commanded(history.cmds) + Held(rd, wr, overflowQueue)
    }

    lemma EnteredConserves(rd0: Side, wr0: Side, overflow: seq<Request>, r: Request)
      requires Entered(rd0, wr0, r)
      ensures Held(rd, wr, overflow) == Held(rd0, wr0, overflow) + multiset{Access(r.bank, r.row, r.write)}
    {
      var s := if deferredWrites && r.write then wr0 else rd0;
      AccessesAppended(s.queue, Numbered(s.lists[r.bank], r, dram.banks[r.bank], rowHitLimit));
    }

    lemma AdmittedConserves(rd0: Side, wr0: Side, overflow0: seq<Request>, id: nat, memCycle: nat)
      requires Admitted(rd0, wr0, overflow0, id, memCycle)
      ensures Held(rd, wr, overflowQueue) == Held(rd0, wr0, overflow0)
    {
      if |rd0.queue| < queueDepth && |wr0.queue| < queueDepth && overflow0 != [] {
        EnteredConserves(rd0, wr0, overflow0[1..], Entering(overflow0[0], id, memCycle));
        AccessesRemoved(overflow0, 0);
        assert RemoveAt(overflow0, 0) == overflow0[1..];
        hide Accesses, Entered, RemoveAt;
      }
    }

    /** A tick issues what it takes off, and loses nothing. */
    lemma TickedConserves(d: Dram, h: History, rd0: Side, wr0: Side, overflow0: seq<Request>, id: nat, k: int,
                          isWriteQueue: bool, memCycle: nat)
      requires Ticked(d, h, rd0, wr0, overflow0, id, k, isWriteQueue, memCycle)
      ensures Arrived() == Commanded(h.cmds) + Held(rd0, wr0, overflow0)
    {
      hide Accesses, Admitted, Entered;
      var s := if isWriteQueue then wr0 else rd0;
      AdmittedConserves(Without(rd0, !isWriteQueue, k), Without(wr0, isWriteQueue, k), overflow0, id, memCycle);
      if k >= 0 {
        AccessesRemoved(s.queue, k);
        var r := s.queue[k];
        CommandedLogged(p, d, h, rankOf(r.bank), r, memCycle);
        hide Commanded, Logged, Issued;
      }
    }

    /** The oldest overflowed request entered the queues, if there was one and there was room; nothing else moved. */
    ghost predicate Admitted(rd0: Side, wr0: Side, overflow0: seq<Request>, id: nat, memCycle: nat)
      reads `dram, `rd, `wr, `overflowQueue
    {
      if |rd0.queue| < queueDepth && |wr0.queue| < queueDepth && overflow0 != [] then
        && overflowQueue == overflow0[1..]
        && Entered(rd0, wr0, Entering(overflow0[0], id, memCycle))
      else overflowQueue == overflow0 && rd == rd0 && wr == wr0
    }

    /** Request k of the writes, or of the reads, was issued and left both the queue and its bank's list, or none did if
        k is -1; then the oldest overflowed request was let in. All other requests are where they were. */
    ghost predicate Ticked(d: Dram, h: History, rd0: Side, wr0: Side, overflow0: seq<Request>, id: nat,
                           k: int, isWriteQueue: bool, memCycle: nat)
      reads `dram, `history, `rd, `wr, `overflowQueue
    {
      var s := if isWriteQueue then wr0 else rd0;
      && (if k < 0 then dram == d && history == h
          else k < |s.queue| && First(s.lists, s.queue[k]) && Served(d, h, s, k, memCycle, Left(s, k)))
      && Admitted(Without(rd0, !isWriteQueue, k), Without(wr0, isWriteQueue, k), overflow0, id, memCycle)
    }

    /** Writes have priority if there are no reads, or the write queue is getting full. */
    predicate WritesFirst(rd0: Side, wr0: Side, lastCmdWasWrite: bool) {
      || rd0.queue == [] || |wr0.queue| > 3 * queueDepth / 4
      || (lastCmdWasWrite && |wr0.queue| > queueDepth / 4)
    }

    /** How many writes are served in a row while reads wait and nothing arrives. */
    ghost function Burst(rd0: Side, wr0: Side, lastCmdWasWrite: bool): nat
      decreases |wr0.queue|
    {
      if wr0.queue == [] || !WritesFirst(rd0, wr0, lastCmdWasWrite) then 0
      else 1 + Burst(rd0, wr0.(queue := wr0.queue[1..]), true)
    }

    /** Writes come in bursts: reads wait only once more than three quarters of the write queue are taken, and then
        until it is down to a quarter. */
    lemma {:induction false} WritesComeInBursts(rd0: Side, wr0: Side, lastCmdWasWrite: bool)
      requires rd0.queue != []
      ensures Burst(rd0, wr0, lastCmdWasWrite) ==
        if |wr0.queue| > 3 * queueDepth / 4 || (lastCmdWasWrite && |wr0.queue| > queueDepth / 4)
        then |wr0.queue| - queueDepth / 4 else 0
      decreases |wr0.queue|
    {
      if wr0.queue != [] && WritesFirst(rd0, wr0, lastCmdWasWrite) {
        WritesComeInBursts(rd0, wr0.(queue := wr0.queue[1..]), true);
      }
    }

    /** When the scheduler wants to be woken up, with these requests left: never if there are none; when the data bus is
        free, if a request was served or it is not free yet; and else when one of the preferred queue may first
        issue. */
    ghost predicate Asks(asked: Option<nat>, rd1: Side, wr1: Side, k: int, memCycle: nat)
      reads `dram
    {
      var s := if WritesFirst(rd1, wr1, dram.lastCmdWasWrite) then wr1 else rd1;
      if rd1.queue == [] && wr1.queue == [] then asked == None
      else if k >= 0 || memCycle + p.tCL < dram.minRespCycle then
        asked.Some? && asked.value == dram.minRespCycle - p.tCL
      else asked.Some? && asked.value > memCycle && Earliest(s.queue, s.lists, asked.value)
    }

    /** The wake-up after the oldest overflowed request was let in, if there was one and there was room: if it heads its
        bank's list, no later than when the data bus is free. */
    ghost predicate Wakes(next: Option<nat>, asked: Option<nat>, rd1: Side, wr1: Side, overflow0: seq<Request>, id: nat,
                          memCycle: nat)
      reads `dram
    {
      next ==
      if |rd1.queue| < queueDepth && |wr1.queue| < queueDepth && overflow0 != [] &&
         GoesFirst(rd1, wr1, Entering(overflow0[0], id, memCycle))
      then NoLaterThan(asked, BusFree(memCycle)) else asked
    }

    function BusFree(memCycle: nat): nat
      reads `dram
    {
      Max(memCycle, dram.minRespCycle - p.tCL - p.tBL)
    }

    /** A request from the overflow queue is woken up for when the data bus is free, though it may have to wait longer
        for its row. That is never too late, and it is too early exactly if the wake-up moves and the row takes
        longer. */
    lemma TooEarlyIff(next: Option<nat>, asked: Option<nat>, rd1: Side, wr1: Side, overflow0: seq<Request>, id: nat,
                      memCycle: nat)
      requires WindowsOk() && overflow0 != [] && overflow0[0].bank < |dram.banks|
      requires |rd1.queue| < queueDepth && |wr1.queue| < queueDepth
      requires Wakes(next, asked, rd1, wr1, overflow0, id, memCycle)
      ensures var r := Entering(overflow0[0], id, memCycle);
        var first, bus := GoesFirst(rd1, wr1, r), BusFree(memCycle);
        var wanted := if first then NoLaterThan(asked, Max(bus, MinCmdCycle(r))) else asked;
        && (next == None <==> wanted == None)
        && (next.Some? ==> next.value <= wanted.value)
        && (next.Some? ==> (next.value < wanted.value <==> first && Later(asked, bus) && MinCmdCycle(r) > bus))
    {
    }

    /** From d and h, this request was issued; its row stays open unless pages are closed and no row hit follows it. */
    ghost predicate Issues(d: Dram, h: History, list: seq<Request>, r: Request, curCycle: nat)
      reads `dram, `history
    {
      && r.bank < |d.banks| == |h.acts| && rankOf(r.bank) < |d.windows| == |h.rankActs|
      && |d.windows[rankOf(r.bank)]| == 4
      && d.minRespCycle > p.tCL
      && dram == Issued(p, d, rankOf(r.bank), r, curCycle, !closedPage || (|list| > 1 && list[1].rowHitSeq != 0))
      && history == Logged(p, d, h, rankOf(r.bank), r, curCycle)
    }

    /** Puts a request into a queue and its bank's list there; first says that it heads the list. */
    method QueueIn(s: Side, r: Request) returns (s': Side, req: Request, first: bool)
      requires SideOk(s, nextId, rowHitLimit, queueDepth, |dram.banks|) && |s.queue| < queueDepth
      requires r.bank < |dram.banks| && r.id == nextId
      modifies `nextId
      ensures nextId == old(nextId) + 1 && SideOk(s', nextId, rowHitLimit, queueDepth, |dram.banks|)
      ensures s' == Joined(s, r, dram.banks[r.bank], rowHitLimit) && s'.queue == s.queue + [req] && req.bank == r.bank
      ensures first == First(s'.lists, req) && (!first ==> s.queue != [])
      ensures first == (Place(s.lists[r.bank], r, dram.banks[r.bank], rowHitLimit) == 0)
      ensures req == r.(rowHitSeq := req.rowHitSeq)
    {
      var k;
      k, req := FindPlace(s.lists[r.bank], r, dram.banks[r.bank]);
      JoinedKeepsSide(s, nextId, rowHitLimit, queueDepth, |dram.banks|, r, dram.banks[r.bank]);
      s' := Side(s.queue + [req], s.lists[r.bank := InsertAt(s.lists[r.bank], k, req)]);
      first := k == 0;
      nextId := nextId + 1;
    }

    /** Queues a request as a read, or as a write if writes are deferred. */
    method Queue(r: Request) returns (req: Request, first: bool)
      requires QueuesOk() && r.bank < |dram.banks| && |rd.queue| < queueDepth && |wr.queue| < queueDepth
      requires r.id == nextId
      modifies `rd, `wr, `nextId
      ensures QueuesOk() && nextId == old(nextId) + 1 && req == r.(rowHitSeq := req.rowHitSeq)
      ensures first == GoesFirst(old(rd), old(wr), r)
      ensures Entered(old(rd), old(wr), r)
      ensures |rd.queue| + |wr.queue| == |old(rd).queue| + |old(wr).queue| + 1
      ensures !first ==> old(rd).queue != [] || old(wr).queue != []
    {
      hide Inv, SideOk, Clock.SysToMem;
      SideSizes(rd, nextId, rowHitLimit, queueDepth, |dram.banks|);
      SideSizes(wr, nextId, rowHitLimit, queueDepth, |dram.banks|);
      if deferredWrites && r.write {
        SideLater(rd, nextId, rowHitLimit, queueDepth, |dram.banks|);
        wr, req, first := QueueIn(wr, r);
      } else {
        SideLater(wr, nextId, rowHitLimit, queueDepth, |dram.banks|);
        rd, req, first := QueueIn(rd, r);
      }
    }

    /** Walks the bank's list from its back to the last request of the same row. */
    method FindPlace(q: seq<Request>, r: Request, b: Bank) returns (k: nat, req: Request)
      ensures k == Place(q, r, b, rowHitLimit) && req == Numbered(q, r, b, rowHitLimit)
      ensures req == r.(rowHitSeq := req.rowHitSeq) && Placed(q, r, b, rowHitLimit, k, req.rowHitSeq)
    {
      PlacedWithItsRow(q, r, b, rowHitLimit);
      hide Placed;
      var m := |q| - 1;
      while m >= 0 && q[m].row != r.row
        invariant -1 <= m < |q| && LastOfRow(q, r.row, |q|) == LastOfRow(q, r.row, m + 1)
      {
        m := m - 1;
      }
      if m >= 0 {
        if q[m].rowHitSeq < rowHitLimit {
          k, req := m + 1, r.(rowHitSeq := q[m].rowHitSeq + 1);
        } else {
          k, req := |q|, r.(rowHitSeq := 0);
        }
      } else if b.open && r.row == b.openRow && b.curRowHits < rowHitLimit && q == [] {
        k, req := 0, r.(rowHitSeq := b.curRowHits + 1);
      } else {
        k, req := |q|, r.(rowHitSeq := 0);
      }
    }

    ghost predicate WindowsOk()
      reads `dram
    {
      && (forall b: nat :: rankOf(b) < |dram.windows|)
      && (forall k: nat | k < |dram.windows| :: |dram.windows[k]| == 4)
    }

    lemma TimingHasWindows()
      requires TimingOk()
      ensures WindowsOk()
    {
      forall k: nat | k < |dram.windows| ensures |dram.windows[k]| == 4 {
        assert RankOk(p, dram.windows[k], history.rankActs[k]);
        WindowFull(p, dram.windows[k], history.rankActs[k]);
      }
    }

    function MinCmdCycle(r: Request): nat
      requires WindowsOk() && r.bank < |dram.banks|
      reads `dram
    {
      FindMinCmdCycle(p, dram.banks[r.bank], r, dram.windows[rankOf(r.bank)][0])
    }

    /** A request that heads its bank's list may not issue before this cycle. */
    ghost predicate NotBefore(lists: seq<seq<Request>>, r: Request, cycle: nat)
      requires WindowsOk()
      reads `dram
    {
      First(lists, r) && r.bank < |dram.banks| ==> MinCmdCycle(r) >= cycle
    }

    /** A request that heads its bank's list may issue at this cycle, and no earlier. */
    ghost predicate IssuesAt(lists: seq<seq<Request>>, r: Request, cycle: nat)
      requires WindowsOk()
      reads `dram
    {
      First(lists, r) && r.bank < |dram.banks| && MinCmdCycle(r) == cycle
    }

    /** The first cycle at which a request that heads its bank's list may issue. */
    ghost predicate Earliest(queue: seq<Request>, lists: seq<seq<Request>>, cycle: nat)
      reads `dram
    {
      && WindowsOk() && (forall i | 0 <= i < |queue| :: NotBefore(lists, queue[i], cycle))
      && exists i | 0 <= i < |queue| :: IssuesAt(lists, queue[i], cycle)
    }

    /** The oldest request that heads its bank's list and may issue by now; or, if there is none, the first cycle at
        which one may. */
    method FindReady(queue: seq<Request>, lists: seq<seq<Request>>, curCycle: nat) returns (k: int,
                     minSchedCycle: Option<nat>)
      requires WindowsOk() && Agree(queue, lists, nextId) && |lists| == |dram.banks| && queue != []
      ensures -1 <= k < |queue|
      ensures k >= 0 ==> First(lists, queue[k]) && MinCmdCycle(queue[k]) <= curCycle
      ensures k >= 0 ==> forall i | 0 <= i < k :: NotBefore(lists, queue[i], curCycle + 1)
      ensures k == -1 ==>
        minSchedCycle.Some? && minSchedCycle.value > curCycle && Earliest(queue, lists, minSchedCycle.value)
    {
      hide Agree;
      ghost var first := SomeFirst(queue, lists, nextId);
      minSchedCycle := None;
      for i := 0 to |queue|
        invariant minSchedCycle.Some? ==> minSchedCycle.value > curCycle
        invariant minSchedCycle.Some? ==> forall j | 0 <= j < i :: NotBefore(lists, queue[j], minSchedCycle.value)
        invariant minSchedCycle.Some? ==> exists j | 0 <= j < i :: IssuesAt(lists, queue[j], minSchedCycle.value)
        invariant minSchedCycle == None ==> forall j | 0 <= j < i :: !First(lists, queue[j])
      {
        QueuedIsListed(queue, lists, nextId, i);
        if lists[queue[i].bank][0] == queue[i] {
          var minCmdCycle := MinCmdCycle(queue[i]);
          if minCmdCycle <= curCycle {
            return i, minSchedCycle;
          }
          minSchedCycle := Some(if minSchedCycle == None then minCmdCycle else Min(minSchedCycle.value, minCmdCycle));
        }
      }
      k := -1;
    }

    /** A row miss: the bank is precharged if a row is open, and the request's row is activated. */
    method Activate(bank: Bank, r: Request, window: nat) returns (bank': Bank, actCycle: nat)
      ensures actCycle == ActCycle(p, bank, r.row, r.arrivalCycle, window)
      ensures bank' == bank.(open := true, openRow := r.row, lastActCycle := actCycle,
                             minPreCycle := if bank.open then Max(r.arrivalCycle, bank.minPreCycle) + p.tRAS
                                            else bank.minPreCycle)
    {
      var preIssued := bank.open;
      var preCycle := if !bank.open then bank.minPreCycle else Max(r.arrivalCycle, bank.minPreCycle);
      actCycle := Max(r.arrivalCycle, Max(preCycle + p.tRP, bank.lastActCycle + p.tRRD));
      actCycle := Max(actCycle, window + p.tFAW);
      // record ACT
      bank' := bank.(open := true, openRow := r.row);
      if preIssued {
        bank' := bank'.(minPreCycle := preCycle + p.tRAS);
      }
      bank' := bank'.(lastActCycle := actCycle);
    }

    /** Finds when the commands of a request can be issued, as early as the bank, the rank and the data bus allow, and
        updates its bank. */
    method Command(d: Dram, bank: Bank, r: Request, curCycle: nat, window: nat, keepOpen: bool)
      returns (bank': Bank, actCycle: nat, cmdCycle: nat)
      requires d.minRespCycle > p.tCL
      ensures bank' == BankAfter(p, d, bank, r, curCycle, window, keepOpen)
      ensures cmdCycle == CmdCycle(p, d, bank, r, curCycle, window)
      ensures !RowHit(bank, r.row) ==> actCycle == ActCycle(p, bank, r.row, r.arrivalCycle, window)
      ensures forall x: nat :: MayIssue(p, d, bank, r, curCycle, window, x) <==> cmdCycle <= x
      ensures !RowHit(bank, r.row) ==>
        forall x: nat :: MayActivate(p, bank, r.arrivalCycle, window, x) <==> actCycle <= x
    {
      IssuedAtOnce(p, d, bank, r, curCycle, window);
      hide MayIssue, MayActivate;
      bank', actCycle := bank, bank.lastActCycle;
      var minCmdCycle := Max(curCycle, d.minRespCycle - p.tCL);
      if d.lastCmdWasWrite && !r.write {
        minCmdCycle := Max(minCmdCycle, d.minRespCycle + p.tWTR);
      }
      if !(r.row == bank.openRow && bank.open) {
        bank', actCycle := Activate(bank, r, window);
        minCmdCycle := Max(minCmdCycle, actCycle + p.tRCD);
      }
      cmdCycle := Max(minCmdCycle, d.minRespCycle - p.tCL);
      assert cmdCycle == CmdCycle(p, d, bank, r, curCycle, window);
      var minRespCycle := cmdCycle + p.tCL + p.tBL;
      // record PRE
      if !keepOpen {
        bank' := bank'.(open := false);
      }
      var lastUse := if r.write then minRespCycle + p.tWR else cmdCycle + p.tRTP;
      bank' := bank'.(minPreCycle := Max(bank'.minPreCycle, Max(bank'.lastActCycle + p.tRAS, lastUse)));
      // record RD or WR
      bank' := bank'.(lastCmdCycle := cmdCycle, curRowHits := r.rowHitSeq);
    }

    /** Issues the commands of a request. */
    method Issue(r: Request, curCycle: nat, keepOpen: bool)
      requires TimingOk() && r.bank < |dram.banks|
      modifies `dram, `history
      ensures TimingOk() && |old(dram).windows[rankOf(r.bank)]| == 4
      ensures dram == Issued(p, old(dram), rankOf(r.bank), r, curCycle, keepOpen)
      ensures history == Logged(p, old(dram), old(history), rankOf(r.bank), r, curCycle)
      ensures |old(history).acts| == |old(dram).banks| && |old(history).rankActs| == |old(dram).windows|
      ensures Does(p, old(dram), old(history), rankOf(r.bank), r, curCycle, dram, history)
    {
      hide Does, CmdsOk, UsesOk, RefreshesOk, BankOk, RankOk;
      var d, rank, bank := dram, rankOf(r.bank), dram.banks[r.bank];
      IssueKeepsTiming(p, d, history, rank, r, curCycle, keepOpen);
      IssuedDoes(p, d, history, rank, r, curCycle, keepOpen);
      var window := d.windows[rank];
      var bank', actCycle, cmdCycle := Command(d, bank, r, curCycle, window[0], keepOpen);
      assert bank.lastCmdCycle < cmdCycle;
      history := Logged(p, d, history, rank, r, curCycle);
      dram := Dram(d.banks[r.bank := bank'],
                   if RowHit(bank, r.row) then d.windows else d.windows[rank := ActWindow.Inserted(window, actCycle)],
                   cmdCycle + p.tCL + p.tBL, r.write);
    }

    /** Among the requests that head their banks' lists, k is the oldest that may issue by now; none may if it is -1. */
    ghost predicate OldestReady(queue: seq<Request>, lists: seq<seq<Request>>, k: int, curCycle: nat)
      reads `dram
    {
      && WindowsOk() && -1 <= k < |queue|
      && (k >= 0 ==> First(lists, queue[k]) && queue[k].bank < |dram.banks| && MinCmdCycle(queue[k]) <= curCycle)
      && forall i | 0 <= i < |queue| && (i < k || k == -1) :: NotBefore(lists, queue[i], curCycle + 1)
    }

    /** Serves the oldest ready request, reads first unless the write queue fills up. Returns when to try again, if
        anything is left. */
    method TrySchedule(curCycle: nat, sysCycle: nat) returns (next: Option<nat>, k: int, isWriteQueue: bool)
      requires TimingOk() && QueuesOk() && curCycle == clock.SysToMem(sysCycle)
      modifies `dram, `history, `rd, `wr
      ensures TimingOk() && QueuesOk() && |dram.banks| == |old(dram).banks|
      ensures Asks(next, rd, wr, k, curCycle) && (next.Some? ==> next.value >= curCycle)
      ensures k < 0 ==> dram == old(dram) && history == old(history) && rd == old(rd) && wr == old(wr)
      ensures |rd.queue| + |wr.queue| + (if k >= 0 then 1 else 0) == |old(rd).queue| + |old(wr).queue|
      ensures k >= 0 ==> isWriteQueue == WritesFirst(old(rd), old(wr), old(dram).lastCmdWasWrite)
      ensures k >= 0 ==> old(OldestReady(if isWriteQueue then wr.queue else rd.queue,
                                         if isWriteQueue then wr.lists else rd.lists, k, curCycle))
      ensures k >= 0 && isWriteQueue ==> rd == old(rd) && Served(old(dram), old(history), old(wr), k, curCycle, wr)
      ensures k >= 0 && !isWriteQueue ==> wr == old(wr) && Served(old(dram), old(history), old(rd), k, curCycle, rd)
    {
      hide Inv, SideOk, Served, OldestReady, Earliest, Clock.SysToMem;
      if rd.queue == [] && wr.queue == [] {
        return None, -1, false;
      }
      if curCycle + p.tCL < dram.minRespCycle {
        return Some(dram.minRespCycle - p.tCL), -1, false;
      }
      // writes have priority if the write queue is getting full
      var prioWrites := |wr.queue| > 3 * queueDepth / 4 || (dram.lastCmdWasWrite && |wr.queue| > queueDepth / 4);
      isWriteQueue := rd.queue == [] || prioWrites;
      if isWriteQueue {
        assert wr.queue != [];
        k, next, wr := ScheduleFrom(wr, curCycle, sysCycle);
      } else {
        k, next, rd := ScheduleFrom(rd, curCycle, sysCycle);
      }
      if k >= 0 {
        next := if rd.queue == [] && wr.queue == [] then None else Some(dram.minRespCycle - p.tCL);
      }
    }

    /** Request k of a side was the oldest that could issue, and has left it. */
    ghost predicate Served(d: Dram, h: History, s: Side, k: int, curCycle: nat, s': Side)
      reads `dram, `history
    {
      && 0 <= k < |s.queue| && First(s.lists, s.queue[k]) && s' == Left(s, k)
      && Issues(d, h, s.lists[s.queue[k].bank], s.queue[k], curCycle)
    }

    /** A served row stays open if pages stay open, or if the bank's next request continues its run of hits. */
    lemma OpenForHitsOnly(d: Dram, h: History, s: Side, k: int, curCycle: nat, s': Side)
      requires SideOk(s, nextId, rowHitLimit, queueDepth, |d.banks|) && Served(d, h, s, k, curCycle, s')
      ensures var r := s.queue[k];
        && r.bank < |s'.lists| && r.bank < |dram.banks|
        && var rest, b := s'.lists[r.bank], dram.banks[r.bank];
        && b.openRow == r.row && (b.open <==> !closedPage || (rest != [] && rest[0].rowHitSeq > 0))
        && (rest != [] && rest[0].rowHitSeq > 0 ==> rest[0].row == r.row && rest[0].rowHitSeq == b.curRowHits + 1)
    {
      var r := s.queue[k];
      var list := s.lists[r.bank];
      assert ListOk(list, r.bank, rowHitLimit) && (|list| > 1 ==> Follows(list, 1));
      hide Agree, Ordered, Accesses;
    }

    /** Serves the oldest ready request of a side. If none is ready, finds the first cycle at which one may be. */
    method ScheduleFrom(s: Side, curCycle: nat, sysCycle: nat) returns (k: int, minSchedCycle: Option<nat>, s': Side)
      requires TimingOk() && SideOk(s, nextId, rowHitLimit, queueDepth, |dram.banks|)
      requires s.queue != [] && curCycle == clock.SysToMem(sysCycle)
      modifies `dram, `history
      ensures TimingOk() && SideOk(s', nextId, rowHitLimit, queueDepth, |dram.banks|)
      ensures |dram.banks| == |old(dram).banks| && old(OldestReady(s.queue, s.lists, k, curCycle))
      ensures k < 0 ==> minSchedCycle.Some? && minSchedCycle.value > curCycle
      ensures k < 0 ==> s' == s && dram == old(dram) && history == old(history)
      ensures k < 0 ==> Earliest(s.queue, s.lists, minSchedCycle.value)
      ensures k >= 0 ==> Served(old(dram), old(history), s, k, curCycle, s')
      ensures |s'.queue| + (if k >= 0 then 1 else 0) == |s.queue|
      ensures k >= 0 ==> dram.minRespCycle >= curCycle + p.tCL + p.tBL
    {
      TimingHasWindows();
      k, minSchedCycle := FindReady(s.queue, s.lists, curCycle);
      if k < 0 {
        s' := s;
      } else {
        assert Within(s.queue, s.queue[k]);
        s' := ServeFrom(s, k, curCycle, sysCycle);
      }
    }

    /** Serves request k of a side and takes it off. */
    method ServeFrom(s: Side, k: nat, curCycle: nat, sysCycle: nat) returns (s': Side)
      requires TimingOk() && SideOk(s, nextId, rowHitLimit, queueDepth, |dram.banks|)
      requires k < |s.queue| && First(s.lists, s.queue[k]) && curCycle == clock.SysToMem(sysCycle)
      modifies `dram, `history
      ensures TimingOk() && SideOk(s', nextId, rowHitLimit, queueDepth, |dram.banks|)
      ensures |dram.banks| == |old(dram).banks|
      ensures Served(old(dram), old(history), s, k, curCycle, s')
      ensures dram.minRespCycle >= curCycle + p.tCL + p.tBL
    {
      var r := s.queue[k];
      assert Within(s.queue, r);
      var list := s.lists[r.bank];
      var keepOpen := !(closedPage && !(|list| > 1 && list[1].rowHitSeq != 0));
      LeftKeepsSide(s, nextId, rowHitLimit, queueDepth, |dram.banks|, k);
      Issue(r, curCycle, keepOpen);
      ResponseNotInThePast(clock, sysCycle, dram.minRespCycle);
      assert clock.MemToSys(dram.minRespCycle) + controllerSysLatency >= sysCycle;
      s' := Side(RemoveAt(s.queue, k), s.lists[r.bank := RemoveAt(list, 0)]);
    }

    /** When a refresh may start: all banks can be precharged and have issued their commands. */
    method FindRefreshStart(banks: seq<Bank>, memCycle: nat) returns (minRefreshCycle: nat)
      ensures minRefreshCycle == RefreshStart(banks, memCycle)
    {
      minRefreshCycle := memCycle;
      for b := 0 to |banks|
        invariant minRefreshCycle == RefreshStart(banks[..b], memCycle)
      {
        assert banks[..b + 1][..b] == banks[..b];
        minRefreshCycle := Max(minRefreshCycle, Max(banks[b].minPreCycle, banks[b].lastCmdCycle));
      }
      assert banks[..|banks|] == banks;
    }

    /** Closes all banks and keeps them closed until the refresh is over. */
    method Refresh(sysCycle: nat)
      requires Valid() && now <= sysCycle
      modifies `dram, `history
      ensures Arrived() == old(Arrived())
      ensures Valid() && dram == Refreshed(p, old(dram), clock.SysToMem(sysCycle))
      ensures history == RefreshLogged(p, old(dram), old(history), clock.SysToMem(sysCycle))
    {
      hide SideOk, EventsOk, Inv, Commanded, Held, Clock.SysToMem;
      var memCycle := clock.SysToMem(sysCycle);
      RefreshKeepsTiming(p, dram, history, memCycle);
      TimingIsSound();
      var minRefreshCycle := FindRefreshStart(dram.banks, memCycle);
      assert minRefreshCycle >= memCycle;
      var refreshDoneCycle := minRefreshCycle + p.tRFC;
      assert p.tRFC >= p.tRP;
      var banks := CloseAll(dram.banks, refreshDoneCycle - p.tRP);
      assert banks == Refreshed(p, dram, memCycle).banks;
      history := RefreshLogged(p, dram, history, memCycle);
      dram := dram.(banks := banks);
    }

    lemma TimingIsSound()
      requires TimingOk()
      ensures p.Ok()
    {
    }

    /** Closes all banks, and forces their activations to wait. */
    method CloseAll(banks: seq<Bank>, minPreCycle: nat) returns (closed: seq<Bank>)
      ensures |closed| == |banks|
      ensures forall b | 0 <= b < |banks| :: closed[b] == banks[b].(minPreCycle := minPreCycle, open := false)
    {
      closed := banks;
      for b := 0 to |banks|
        invariant |closed| == |banks|
        invariant forall c | 0 <= c < b :: closed[c] == banks[c].(minPreCycle := minPreCycle, open := false)
        invariant forall c | b <= c < |banks| :: closed[c] == banks[c]
      {
        closed := closed[b := closed[b].(minPreCycle := minPreCycle, open := false)];
      }
    }

    // ---- events

    /** The system cycle at which an event for this memory cycle runs. */
    method EventCycle(memCycle: nat, sysCycle: nat) returns (cycle: nat)
      requires clock.Ok() && memCycle >= clock.SysToMem(sysCycle)
      ensures cycle > 0 && cycle >= sysCycle && clock.SysToMem(cycle) == memCycle
    {
      EventHitsItsCycle(clock, sysCycle, memCycle);
      cycle := Max(clock.MatchingMemToSys(memCycle), sysCycle);
    }

    /** A fresh or recycled scheduling event for a memory cycle replaces the live one. */
    method Reschedule(minSchedCycle: nat, sysCycle: nat)
      requires EventsOk() && now <= sysCycle && minSchedCycle >= clock.SysToMem(sysCycle)
      modifies `nextSchedCycle, `nextSchedEvent, `events, `eventFreelist, `now
      ensures EventsOk() && nextSchedCycle == Some(minSchedCycle) && now == sysCycle
    {
      hide Clock.SysToMem;
      if nextSchedEvent.Some? {
        var e := nextSchedEvent.value;
        assert events[e].state == QUEUED;
        events := events[e := events[e].(state := ANNULLED)];
      }
      var ev: nat;
      if eventFreelist != [] {
        ev := eventFreelist[0];
        eventFreelist := eventFreelist[1..];
      } else {
        ev := |events|;
        events := events + [SchedEvent(IDLE, 0)];
      }
      nextSchedEvent := Some(ev);
      var enqSysCycle := EventCycle(minSchedCycle, sysCycle);
      assert events[ev].state == IDLE;
      events := events[ev := SchedEvent(QUEUED, enqSysCycle)];
      nextSchedCycle := Some(minSchedCycle);
      now := sysCycle;
    }

    /** A request arrives. It overflows if either queue is full; otherwise, if it heads its bank's list and may be
        served before the next wake-up, the wake-up moves. */
    method Enqueue(bank: nat, row: nat, write: bool, sysCycle: nat)
      requires Valid() && bank < |dram.banks| && now <= sysCycle
      requires nextSchedEvent.Some? ==> sysCycle <= events[nextSchedEvent.value].cycle
      modifies this
      ensures Valid() && Waiting() == old(Waiting()) + 1 && dram == old(dram) && now == sysCycle
      ensures Arrived() == old(Arrived()) + multiset{Access(bank, row, write)}
      ensures var full, memCycle := old(|rd.queue| == queueDepth || |wr.queue| == queueDepth), clock.SysToMem(sysCycle);
        && (full ==> rd == old(rd) && wr == old(wr))
        && (full ==> overflowQueue == old(overflowQueue) + [Request(0, bank, row, write, 0, memCycle)])
        && (!full ==> overflowQueue == old(overflowQueue))
        && (!full ==> Entered(old(rd), old(wr), Request(old(nextId), bank, row, write, 0, memCycle)))
        && (full ==> nextSchedCycle == old(nextSchedCycle))
        && (!full ==>
              WokenFor(old(nextSchedCycle), old(rd), old(wr), Request(old(nextId), bank, row, write, 0, memCycle)))
    {
      hide Inv, SideOk, Entered, WokenFor, Held, Commanded, Clock.SysToMem;
      SideSizes(rd, nextId, rowHitLimit, queueDepth, |dram.banks|);
      SideSizes(wr, nextId, rowHitLimit, queueDepth, |dram.banks|);
      var memCycle := clock.SysToMem(sysCycle);
      now := sysCycle;
      if |rd.queue| == queueDepth || |wr.queue| == queueDepth {
        HeldOverflow(rd, wr, overflowQueue, Request(0, bank, row, write, 0, memCycle));
        overflowQueue := overflowQueue + [Request(0, bank, row, write, 0, memCycle)];
      } else {
        Accept(bank, row, write, memCycle, sysCycle);
      }
    }

    /** If a request that arrives now heads its bank's list, there is a wake-up no later than when it may issue. */
    ghost predicate WokenFor(next0: Option<nat>, rd0: Side, wr0: Side, r: Request)
      reads `dram, `nextSchedCycle
    {
      && WindowsOk() && r.bank < |dram.banks|
      && nextSchedCycle ==
         if GoesFirst(rd0, wr0, r)
         then NoLaterThan(next0, Max(Max(r.arrivalCycle, dram.minRespCycle - p.tCL - p.tBL), MinCmdCycle(r)))
         else next0
    }

    /** A request is queued, and a wake-up found for it if it heads its bank's list. */
    method Accept(bank: nat, row: nat, write: bool, memCycle: nat, sysCycle: nat)
      requires Valid() && bank < |dram.banks| && |rd.queue| < queueDepth && |wr.queue| < queueDepth
      requires now == sysCycle && memCycle == clock.SysToMem(sysCycle)
      modifies `rd, `wr, `nextId, `nextSchedCycle, `nextSchedEvent, `events, `eventFreelist, `now
      ensures Valid() && Waiting() == old(Waiting()) + 1 && now == sysCycle
      ensures Entered(old(rd), old(wr), Request(old(nextId), bank, row, write, 0, memCycle))
      ensures WokenFor(old(nextSchedCycle), old(rd), old(wr), Request(old(nextId), bank, row, write, 0, memCycle))
      ensures Held(rd, wr, overflowQueue) == old(Held(rd, wr, overflowQueue)) + multiset{Access(bank, row, write)}
    {
      hide Inv, SideOk, Entered, GoesFirst, Live, FreeOk, Held, ActCycle, Clock.SysToMem;
      var req, first := Queue(Request(nextId, bank, row, write, 0, memCycle));
      EnteredConserves(old(rd), old(wr), overflowQueue, Request(old(nextId), bank, row, write, 0, memCycle));
      TimingHasWindows();
      if first {
        WakeFor(req, memCycle, sysCycle);
      }
    }

    /** Moves the wake-up forward if this request may be served earlier. */
    method WakeFor(req: Request, memCycle: nat, sysCycle: nat)
      requires TimingOk() && EventsOk() && req.bank < |dram.banks|
      requires now <= sysCycle && memCycle == clock.SysToMem(sysCycle)
      modifies `nextSchedCycle, `nextSchedEvent, `events, `eventFreelist, `now
      ensures EventsOk() && nextSchedEvent.Some? && now <= sysCycle
      ensures WindowsOk()
      ensures nextSchedCycle ==
        NoLaterThan(old(nextSchedCycle), Max(Max(memCycle, dram.minRespCycle - p.tCL - p.tBL), MinCmdCycle(req)))
      ensures now == old(now) || now == sysCycle
    {
      TimingHasWindows();
      var minSchedCycle := Max(memCycle, dram.minRespCycle - p.tCL - p.tBL);
      if Later(nextSchedCycle, minSchedCycle) {
        minSchedCycle := Max(minSchedCycle, MinCmdCycle(req));
      }
      if Later(nextSchedCycle, minSchedCycle) {
        Reschedule(minSchedCycle, sysCycle);
      }
    }

    /** The wake-up: serves a request, lets one overflowed request in, and returns the system cycle of the next
        wake-up, or 0 if nothing waits. The running event stays the live one exactly if there is a next wake-up. */
    method Tick(sysCycle: nat) returns (nextSysCycle: nat, k: int, isWriteQueue: bool, ghost asked: Option<nat>)
      requires WaitsOk()
      requires nextSchedEvent.Some? && nextSchedCycle == Some(clock.SysToMem(sysCycle))
      modifies `dram, `history, `rd, `wr, `overflowQueue, `nextId, `nextSchedCycle, `nextSchedEvent
      ensures WaitsOk()
      ensures Waiting() + (if k >= 0 then 1 else 0) == old(Waiting())
      ensures Ticked(old(dram), old(history), old(rd), old(wr), old(overflowQueue), old(nextId), k, isWriteQueue,
                     clock.SysToMem(sysCycle))
      ensures Woken(old(rd), old(wr), old(overflowQueue), old(nextId), k, isWriteQueue, clock.SysToMem(sysCycle), asked)
      ensures nextSysCycle == 0 <==> rd.queue == [] && wr.queue == []
      ensures nextSysCycle == 0 ==> nextSchedEvent == None && nextSchedCycle == None
      ensures nextSysCycle > 0 ==> nextSchedEvent == old(nextSchedEvent) && nextSysCycle >= sysCycle
      ensures nextSysCycle > 0 ==> nextSchedCycle == Some(clock.SysToMem(nextSysCycle))
    {
      hide Inv, SideOk, Ticked, Asks, Wakes, GoesFirst, Clock.SysToMem;
      var memCycle := clock.SysToMem(sysCycle);
      assert nextSchedCycle == Some(memCycle);
      var minSchedCycle;
      minSchedCycle, k, isWriteQueue, asked := ServeAndAdmit(memCycle, sysCycle);
      nextSchedCycle := minSchedCycle;
      if nextSchedCycle == None {
        nextSchedEvent := None;
        nextSysCycle := 0;
      } else {
        nextSysCycle := EventCycle(nextSchedCycle.value, sysCycle);
      }
    }

    /** The next wake-up is what the scheduler asks for, unless a newly admitted request wants an earlier one. */
    ghost predicate Woken(rd0: Side, wr0: Side, overflow0: seq<Request>, id: nat, k: int, isWriteQueue: bool,
                          memCycle: nat, asked: Option<nat>)
      reads `dram, `nextSchedCycle
    {
      var rd1, wr1 := Without(rd0, !isWriteQueue, k), Without(wr0, isWriteQueue, k);
      Asks(asked, rd1, wr1, k, memCycle) && Wakes(nextSchedCycle, asked, rd1, wr1, overflow0, id, memCycle)
    }

    /** Serves a request, if one is ready, and lets one overflowed request in, if there is room. */
    method ServeAndAdmit(memCycle: nat, sysCycle: nat)
      returns (minSchedCycle: Option<nat>, k: int, isWriteQueue: bool, ghost asked: Option<nat>)
      requires WaitsOk() && memCycle == clock.SysToMem(sysCycle)
      modifies `dram, `history, `rd, `wr, `overflowQueue, `nextId
      ensures WaitsOk()
      ensures Waiting() + (if k >= 0 then 1 else 0) == old(Waiting())
      ensures Ticked(old(dram), old(history), old(rd), old(wr), old(overflowQueue), old(nextId), k, isWriteQueue,
                     memCycle)
      ensures var rd1, wr1 := Without(old(rd), !isWriteQueue, k), Without(old(wr), isWriteQueue, k);
        && Asks(asked, rd1, wr1, k, memCycle)
        && Wakes(minSchedCycle, asked, rd1, wr1, old(overflowQueue), old(nextId), memCycle)
      ensures minSchedCycle == None <==> rd.queue == [] && wr.queue == []
      ensures minSchedCycle.Some? ==> minSchedCycle.value >= memCycle
    {
      hide Inv, SideOk, Admitted, Wakes, Issues, OldestReady, Earliest, WritesFirst, Clock.SysToMem;
      minSchedCycle, k, isWriteQueue := TrySchedule(memCycle, sysCycle);
      asked := minSchedCycle;
      assert minSchedCycle.Some? ==> minSchedCycle.value >= memCycle;
      assert rd == Without(old(rd), !isWriteQueue, k) && wr == Without(old(wr), isWriteQueue, k);
      minSchedCycle := AdmitIfRoom(minSchedCycle, memCycle);
    }

    /** Lets one overflowed request in, if there is one and there is room. */
    method AdmitIfRoom(minSchedCycle: Option<nat>, memCycle: nat) returns (next: Option<nat>)
      requires TimingOk() && QueuesOk() && OverflowOk()
      requires minSchedCycle == None <==> rd.queue == [] && wr.queue == []
      requires minSchedCycle.Some? ==> minSchedCycle.value >= memCycle
      modifies `rd, `wr, `overflowQueue, `nextId
      ensures WaitsOk() && Waiting() == old(Waiting())
      ensures Admitted(old(rd), old(wr), old(overflowQueue), old(nextId), memCycle)
      ensures Wakes(next, minSchedCycle, old(rd), old(wr), old(overflowQueue), old(nextId), memCycle)
      ensures next == None <==> rd.queue == [] && wr.queue == []
      ensures next.Some? ==> next.value >= memCycle
    {
      hide Inv, Entered, GoesFirst, NoLaterThan, Clock.SysToMem;
      QueuesHaveRoom();
      hide SideOk;
      next := minSchedCycle;
      if |rd.queue| < queueDepth && |wr.queue| < queueDepth && overflowQueue != [] {
        next := AdmitOverflow(minSchedCycle, memCycle);
      }
    }

    lemma QueuesHaveRoom()
      requires QueuesOk()
      ensures |rd.queue| <= queueDepth && |wr.queue| <= queueDepth
    {
    }

    /** The oldest overflowed request is queued. If it heads its bank's list, the wake-up may have to be earlier: the
        result is the earlier of the old wake-up and the first cycle at which the data bus could be used, even if the
        row will not be open by then. */
    method AdmitOverflow(minSchedCycle: Option<nat>, memCycle: nat) returns (next: Option<nat>)
      requires TimingOk() && QueuesOk() && OverflowOk() && overflowQueue != []
      requires |rd.queue| < queueDepth && |wr.queue| < queueDepth
      requires minSchedCycle == None <==> rd.queue == [] && wr.queue == []
      requires minSchedCycle.Some? ==> minSchedCycle.value >= memCycle
      modifies `rd, `wr, `overflowQueue, `nextId
      ensures QueuesOk() && OverflowOk() && overflowQueue == old(overflowQueue)[1..]
      ensures Entered(old(rd), old(wr), Entering(old(overflowQueue)[0], old(nextId), memCycle))
      ensures |rd.queue| + |wr.queue| == |old(rd).queue| + |old(wr).queue| + 1
      ensures next.Some? && next.value >= memCycle
      ensures Wakes(next, minSchedCycle, old(rd), old(wr), old(overflowQueue), old(nextId), memCycle)
    {
      hide Inv, SideOk, Clock.SysToMem;
      var ovfReq := overflowQueue[0];
      overflowQueue := overflowQueue[1..];
      var req, first := Queue(Request(nextId, ovfReq.bank, ovfReq.row, ovfReq.write, 0, memCycle));
      next := minSchedCycle;
      if first {
        TimingHasWindows();
        var minQueuedSchedCycle := Max(memCycle, dram.minRespCycle - p.tCL - p.tBL);
        if Later(next, minQueuedSchedCycle) {
          next := Some(Max(minQueuedSchedCycle, MinCmdCycle(req)));
        }
        if Later(next, minQueuedSchedCycle) {
          next := Some(minQueuedSchedCycle);
        }
      }
    }

    /** A scheduling event runs, at the cycle it was queued for. If it is live it ticks the controller and is queued
        again or recycled; an annulled one is only recycled. */
    method Simulate(e: nat, startCycle: nat) returns (k: int, isWriteQueue: bool, ghost asked: Option<nat>)
      requires Valid() && e < |events| && (events[e].state == QUEUED || events[e].state == ANNULLED)
      requires startCycle == events[e].cycle && now <= startCycle
      requires nextSchedEvent.Some? ==> startCycle <= events[nextSchedEvent.value].cycle
      modifies this
      ensures Valid() && Waiting() + (if k >= 0 then 1 else 0) == old(Waiting()) && now == startCycle
      ensures Arrived() == old(Arrived())
      ensures old(events)[e].state == QUEUED ==>
        var memCycle := clock.SysToMem(startCycle);
        && old(nextSchedCycle) == Some(memCycle)
        && Ticked(old(dram), old(history), old(rd), old(wr), old(overflowQueue), old(nextId), k, isWriteQueue, memCycle)
        && Woken(old(rd), old(wr), old(overflowQueue), old(nextId), k, isWriteQueue, memCycle, asked)
      ensures old(events)[e].state == ANNULLED ==> events == old(events)[e := SchedEvent(IDLE, startCycle)]
      ensures old(events)[e].state == ANNULLED ==>
        k < 0 && rd == old(rd) && wr == old(wr) && overflowQueue == old(overflowQueue)
    {
      hide Inv, SideOk, Ticked, Woken, QueuesOk, OverflowOk, Commanded, Held, Clock.SysToMem;
      now := startCycle;
      if events[e].state == QUEUED {
        events := events[e := events[e].(state := RUNNING)];
        var nextCycle;
        nextCycle, k, isWriteQueue, asked := Tick(startCycle);
        TickedConserves(old(dram), old(history), old(rd), old(wr), old(overflowQueue), old(nextId), k, isWriteQueue,
                        clock.SysToMem(startCycle));
        Settle(e, nextCycle, startCycle);
      } else {
        k, isWriteQueue, asked := -1, false, None;
        Settle(e, 0, startCycle);
      }
    }

    /** After an event ran: it is queued for the next cycle, or it goes to the free list. */
    method Settle(e: nat, nextCycle: nat, startCycle: nat)
      requires clock.Ok() && FreeOk() && e < |events| && now == startCycle
      requires events[e].state == RUNNING || (events[e].state == ANNULLED && nextCycle == 0)
      requires forall f: nat | f < |events| && f != e :: events[f].state != RUNNING
      requires nextSchedCycle.Some? == nextSchedEvent.Some?
      requires forall f: nat | f < |events| && events[f].state == QUEUED :: nextSchedEvent == Some(f)
      requires if nextCycle > 0
               then nextSchedEvent == Some(e) && nextCycle >= startCycle &&
                    nextSchedCycle == Some(clock.SysToMem(nextCycle))
               else nextSchedEvent != Some(e) &&
                    (nextSchedEvent.Some? ==> Live(nextSchedEvent.value, nextSchedCycle.value))
      modifies `events, `eventFreelist
      ensures EventsOk()
      ensures nextCycle == 0 ==> events == old(events)[e := SchedEvent(IDLE, startCycle)]
    {
      if nextCycle != 0 {
        events := events[e := SchedEvent(QUEUED, nextCycle)];
      } else {
        events := events[e := SchedEvent(IDLE, startCycle)];
        Recycle(e);
      }
    }

    /** An idle event goes to the free list. */
    method Recycle(e: nat)
      requires FreeOk() && e < |events| && events[e].state == IDLE && nextSchedEvent != Some(e)
      requires forall i | 0 <= i < |eventFreelist| :: eventFreelist[i] != e
      modifies `eventFreelist
      ensures FreeOk()
    {
      eventFreelist := [e] + eventFreelist;
    }

    // ---- progress

    /** Some request of the preferred side may issue at this cycle. */
    ghost predicate Servable(rd0: Side, wr0: Side, cycle: nat)
      reads `dram
    {
      var s := if WritesFirst(rd0, wr0, dram.lastCmdWasWrite) then wr0 else rd0;
      WindowsOk() && exists i | 0 <= i < |s.queue| :: ServableBy(s.lists, s.queue[i], cycle)
    }

    ghost predicate ServableBy(lists: seq<seq<Request>>, r: Request, cycle: nat)
      requires WindowsOk()
      reads `dram
    {
      First(lists, r) && r.bank < |dram.banks| && MinCmdCycle(r) <= cycle
    }

    /** A tick at this cycle finds the data bus taken, or no request that may issue, or serves one. */
    ghost function Stage(rd0: Side, wr0: Side, cycle: nat): nat
      reads `dram
    {
      if cycle + p.tCL < dram.minRespCycle then 2 else if Servable(rd0, wr0, cycle) then 0 else 1
    }

    /** How many ticks may pass before a request is served. */
    ghost function Delay(): nat
      reads `dram, `rd, `wr, `overflowQueue, `nextSchedCycle
    {
      if nextSchedCycle == None then 0 else 3 * |overflowQueue| + Stage(rd, wr, nextSchedCycle.value)
    }

    /** A tick that serves nothing and lets nobody in gets further. */
    lemma UnservedGetsFurther(rd0: Side, wr0: Side, k: int, memCycle: nat, asked: Option<nat>)
      requires WindowsOk() && asked.Some? && k < 0 && Asks(asked, rd0, wr0, k, memCycle)
      ensures Stage(rd0, wr0, asked.value) < Stage(rd0, wr0, memCycle)
    {
      if memCycle + p.tCL >= dram.minRespCycle {
        var s := if WritesFirst(rd0, wr0, dram.lastCmdWasWrite) then wr0 else rd0;
        assert Earliest(s.queue, s.lists, asked.value);
        var i :| 0 <= i < |s.queue| && IssuesAt(s.lists, s.queue[i], asked.value);
        assert ServableBy(s.lists, s.queue[i], asked.value);
        assert Servable(rd0, wr0, asked.value);
        forall j | 0 <= j < |s.queue| ensures !ServableBy(s.lists, s.queue[j], memCycle) {
          assert NotBefore(s.lists, s.queue[j], asked.value);
        }
        assert !Servable(rd0, wr0, memCycle);
      }
    }

    /** A tick that serves nothing brings the next service nearer. */
    lemma UnservedBringsNearer(d: Dram, h: History, rd0: Side, wr0: Side, overflow0: seq<Request>, id: nat, k: int,
                               isWriteQueue: bool, memCycle: nat, asked: Option<nat>)
      requires WindowsOk() && k < 0 && nextSchedCycle.Some?
      requires Ticked(d, h, rd0, wr0, overflow0, id, k, isWriteQueue, memCycle)
      requires Woken(rd0, wr0, overflow0, id, k, isWriteQueue, memCycle, asked)
      ensures dram == d && Delay() < 3 * |overflow0| + Stage(rd0, wr0, memCycle)
    {
      assert Without(rd0, !isWriteQueue, k) == rd0 && Without(wr0, isWriteQueue, k) == wr0;
      if overflowQueue == overflow0 {
        UnservedGetsFurther(rd0, wr0, k, memCycle, asked);
      }
    }

    /** The live event runs, until a request is served: without arrivals and refreshes a bounded number of times. */
    method ServeNext() returns (ticks: nat)
      requires Valid() && Waiting() > 0
      modifies this
      ensures Valid() && Waiting() == old(Waiting()) - 1 && Arrived() == old(Arrived())
      ensures ticks <= 3 * |old(overflowQueue)| + 3
    {
      ticks := 0;
      var k := -1;
      while k < 0
        invariant Valid() && Waiting() == old(Waiting()) - (if k < 0 then 0 else 1) && Arrived() == old(Arrived())
        invariant ticks + (if k < 0 then Delay() + 1 else 0) <= 3 * |old(overflowQueue)| + 3
        decreases if k < 0 then Delay() + 1 else 0
      {
        var isWriteQueue;
        ghost var asked;
        k, isWriteQueue, asked := RunLive();
        ticks := ticks + 1;
      }
    }

    /** The live event runs. If it serves nothing, the next service is nearer. */
    method RunLive() returns (k: int, isWriteQueue: bool, ghost asked: Option<nat>)
      requires Valid() && Waiting() > 0
      modifies this
      ensures Valid() && Waiting() == old(Waiting()) - (if k < 0 then 0 else 1) && Arrived() == old(Arrived())
      ensures k < 0 ==> Delay() < old(Delay())
      ensures old(nextSchedCycle).Some? && var memCycle := old(nextSchedCycle).value;
        && Ticked(old(dram), old(history), old(rd), old(wr), old(overflowQueue), old(nextId), k, isWriteQueue, memCycle)
        && Woken(old(rd), old(wr), old(overflowQueue), old(nextId), k, isWriteQueue, memCycle, asked)
    {
      hide Inv, SideOk, Ticked, Woken, Stage, FreeOk, TimingOk, Commanded, Held, Clock.SysToMem;
      ghost var e0 := WaitingRequestsAreWokenUp();
      var e := nextSchedEvent.value;
      ghost var d, h, rd0, wr0, overflow0, id := dram, history, rd, wr, overflowQueue, nextId;
      k, isWriteQueue, asked := Simulate(e, events[e].cycle);
      if k < 0 {
        TimingHasWindows();
        ghost var next := WaitingRequestsAreWokenUp();
        UnservedBringsNearer(d, h, rd0, wr0, overflow0, id, k, isWriteQueue, clock.SysToMem(now), asked);
      }
    }

    /** Without arrivals and refreshes, everybody who waits is served: in the end a column command has been issued for
        each access that ever arrived, and no more than one. */
    method Drain()
      requires Valid()
      modifies this
      ensures Valid() && Waiting() == 0 && Commanded(history.cmds) == old(Arrived())
    {
      while |rd.queue| + |wr.queue| + |overflowQueue| > 0
        invariant Valid() && Arrived() == old(Arrived())
        decreases Waiting()
      {
        var ticks := ServeNext();
      }
    }
  }

  // ---- a run in which an overflowed request is woken up for too early

  function SmallDram(): Dram {
    Dram([Bank(0, false, 0, 0, 0, 0), Bank(0, false, 0, 0, 0, 0)], [[0, 0, 0, 0]], 12, false)
  }

  /** A controller with room for one request, and two banks. */
  ghost predicate Small(c: Controller) {
    && c.p == Params(4, 7, 14, 5, 14, 5, 24, 20, 5, 10, 74) && c.clock == Clock(4, 1) && (forall b :: c.rankOf(b) == 0)
    && c.queueDepth == 1 && !c.deferredWrites && !c.closedPage
  }

  /** A request waits in the reads, and this many in the overflow; the controller wakes up at cycle 115. */
  ghost predicate Waits(c: Controller, overflowing: seq<Request>)
    reads c
  {
    && Small(c) && c.dram == SmallDram() && c.nextSchedCycle == Some(115) && c.wr.queue == []
    && |c.rd.queue| == 1 && c.rd.queue[0] == Request(c.rd.queue[0].id, 0, 5, false, c.rd.queue[0].rowHitSeq, 101)
    && First(c.rd.lists, c.rd.queue[0]) && c.overflowQueue == overflowing
    && |c.rd.lists| == 2 && c.rd.lists[1] == [] && c.rd.lists[0] == c.rd.queue
  }

  method FirstArrives() returns (c: Controller)
    ensures fresh(c) && c.Valid() && Waits(c, []) && c.now == 400
  {
    hide Inv, Held, Controller.Arrived, Controller.Valid;
    var p := Params(4, 7, 14, 5, 14, 5, 24, 20, 5, 10, 74);
    c := new Controller(p, Clock(4, 1), 1, 2, _ => 0, 1, 4, false, false, 0);
    assert c.dram.banks == SmallDram().banks && c.dram.windows == SmallDram().windows;
    c.Enqueue(0, 5, false, 400);
  }

  method SecondOverflows(c: Controller)
    requires c.Valid() && Waits(c, []) && c.now == 400
    modifies c
    ensures c.Valid() && Waits(c, [Request(0, 1, 5, false, 0, 101)])
  {
    hide Inv, Held, Controller.Arrived, Controller.Valid, Controller.WokenFor, Controller.Entered;
    if c.nextSchedEvent.Some? {
      c.LiveIsNotPast();
    }
    c.Enqueue(1, 5, false, 400);
  }

  /** The first request has been served at cycle 115. */
  lemma SmallServed(p: Params, d: Dram, r: Request, keepOpen: bool)
    requires p == Params(4, 7, 14, 5, 14, 5, 24, 20, 5, 10, 74) && d == SmallDram()
    requires r == Request(r.id, 0, 5, false, r.rowHitSeq, 101)
    ensures var e := Issued(p, d, 0, r, 115, keepOpen);
      && e.minRespCycle == 126 && e.banks[1] == SmallDram().banks[1] && |e.windows| == 1
      && |e.windows[0]| == 4 && e.windows[0][0] == 0
  {
    assert ActCycle(p, d.banks[0], 5, 101, 0) == 101;
    assert ActWindow.Inserted([0, 0, 0, 0], 101) == [0, 0, 0, 101];
  }

  /** Then the second one has come in, and the next wake-up is too early for it. */
  lemma SmallAdmitted(c: Controller, h: History, rd0: Side, wr0: Side, id: nat, asked: Option<nat>)
    requires Small(c) && c.WindowsOk() && |wr0.queue| == 0 && |rd0.queue| == 1 && |rd0.lists| == 2 && rd0.lists[1] == []
    requires rd0.queue[0] == Request(rd0.queue[0].id, 0, 5, false, rd0.queue[0].rowHitSeq, 101)
    requires c.Ticked(SmallDram(), h, rd0, wr0, [Request(0, 1, 5, false, 0, 101)], id, 0, false, 115)
    requires c.Woken(rd0, wr0, [Request(0, 1, 5, false, 0, 101)], id, 0, false, 115, asked)
    ensures c.nextSchedCycle == Some(115) && |c.rd.queue| == 1 && c.rd.queue[0].bank < |c.dram.banks|
    ensures c.MinCmdCycle(c.rd.queue[0]) == 129
  {
    var r := rd0.queue[0];
    var keepOpen :| c.dram == Issued(c.p, SmallDram(), 0, r, 115, keepOpen);
    SmallServed(c.p, SmallDram(), r, keepOpen);
    var rd1 := Left(rd0, 0);
    assert Without(rd0, true, 0) == rd1 && rd1.queue == [] && rd1.lists[1] == [];
    var second := Entering(Request(0, 1, 5, false, 0, 101), id, 115);
    assert c.rd == Joined(rd1, second, c.dram.banks[1], c.rowHitLimit);
    assert c.rd.queue == [Numbered([], second, c.dram.banks[1], c.rowHitLimit)];
    assert c.GoesFirst(rd1, wr0, second);
    assert asked == None;
  }

  /** With room for one request, the first arrives at memory cycle 101 and a second one, for another bank, overflows.
      The tick at cycle 115 serves the first, lets the second in, and the next wake-up is for cycle 115 again, though
      the second cannot issue before 129. */
  method WokenTooEarly() returns (c: Controller)
    ensures fresh(c) && c.Valid() && c.nextSchedCycle == Some(115)
    ensures |c.rd.queue| == 1 && c.WindowsOk() && c.rd.queue[0].bank < |c.dram.banks|
    ensures c.MinCmdCycle(c.rd.queue[0]) == 129
  {
    hide Inv, SideOk;
    c := FirstArrives();
    SecondOverflows(c);
    ghost var h, rd0, wr0, id := c.history, c.rd, c.wr, c.nextId;
    c.TimingHasWindows();
    assert c.ServableBy(rd0.lists, rd0.queue[0], 115);
    var k, isWriteQueue;
    ghost var asked;
    k, isWriteQueue, asked := c.RunLive();
    c.TimingHasWindows();
    SmallAdmitted(c, h, rd0, wr0, id, asked);
  }
}
