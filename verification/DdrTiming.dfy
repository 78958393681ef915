/** The DRAM timing constraints that src/ddr_mem.cpp keeps while it schedules: what is remembered of a bank, when a
    request may issue, what issuing it changes, and what that guarantees of all commands ever issued. */
module DdrTiming {
  import opened ActWindow

  datatype Params = Params(tBL: nat, tCL: nat, tRCD: nat, tRTP: nat, tRP: nat, tRRD: nat, tRAS: nat, tFAW: nat,
                           tWTR: nat, tWR: nat, tRFC: nat)
  {
    ghost predicate Ok() {
      tBL > 0 && tRFC >= tRP
    }
  }

  datatype Bank = Bank(openRow: nat, open: bool, minPreCycle: nat, lastActCycle: nat, lastCmdCycle: nat,
                       curRowHits: nat)

  /** What scheduling needs to know of a request. Banks are numbered across ranks. */
  datatype Request = Request(id: nat, bank: nat, row: nat, write: bool, rowHitSeq: nat, arrivalCycle: nat)

  /** The controller's view of the DRAM; windows holds the entries of each rank's activation window. */
  datatype Dram = Dram(banks: seq<Bank>, windows: seq<seq<nat>>, minRespCycle: nat, lastCmdWasWrite: bool)

  function Max(a: int, b: int): int {
    if a > b then a else b
  }

  function Min(a: int, b: int): int {
    if a < b then a else b
  }

  /** The activation that a row miss needs. */
  function ActCycle(p: Params, b: Bank, row: nat, arrival: nat, window: nat): nat
  {
    var preCycle := if !b.open then b.minPreCycle else Max(arrival, b.minPreCycle);
    Max(Max(arrival, Max(preCycle + p.tRP, b.lastActCycle + p.tRRD)), window + p.tFAW)
  }

  function RowHit(b: Bank, row: nat): bool {
    row == b.openRow && b.open
  }

  function FindMinCmdCycle(p: Params, b: Bank, r: Request, window: nat): nat {
    if RowHit(b, r.row) then Max(r.arrivalCycle, b.lastCmdCycle + 1)
    else ActCycle(p, b, r.row, r.arrivalCycle, window) + p.tRCD
  }

  // ---- the log of everything issued, newest first

  /** A row is opened. */
  datatype Act = Act(cycle: nat, row: nat)

  /** A column command: when it was issued, the cycle of the activation it used, and its burst on the data bus. */
  datatype Cmd = Cmd(bank: nat, row: nat, write: bool, cycle: nat, act: nat, burstStart: nat, burstEnd: nat)

  /** A refresh of all banks, from the cycle at which it may start to the one at which it is over. */
  datatype Refreshing = Refreshing(start: nat, done: nat)

  /** All column commands, the activations of each bank, the cycles of those of each rank, and all refreshes. */
  datatype History = History(cmds: seq<Cmd>, acts: seq<seq<Act>>, rankActs: seq<seq<nat>>, refreshes: seq<Refreshing>)

  /** Data bursts never overlap, a read waits out the write-to-read turnaround, and column commands their activation. */
  ghost predicate CmdsOk(p: Params, cmds: seq<Cmd>) {
    && (forall i, j | 0 <= i < j < |cmds| :: cmds[j].burstEnd <= cmds[i].burstStart)
    && (forall i | 0 <= i < |cmds| - 1 ::
          cmds[i + 1].write && !cmds[i].write ==> cmds[i].cycle >= cmds[i + 1].burstEnd + p.tWTR)
    && (forall i | 0 <= i < |cmds| ::
          && cmds[i].cycle >= cmds[i].act + p.tRCD && cmds[i].burstStart == cmds[i].cycle + p.tCL
          && cmds[i].burstEnd == cmds[i].burstStart + p.tBL)
  }

  /** Activations of one bank leave time for the row to be restored and the bank to be precharged, and tRRD. */
  ghost predicate Spaced(p: Params, acts: seq<Act>) {
    forall i, j | 0 <= i < j < |acts| :: acts[i].cycle >= acts[j].cycle + Max(p.tRAS + p.tRP, p.tRRD)
  }

  ghost predicate BankOk(p: Params, b: Bank, acts: seq<Act>, minRespCycle: nat) {
    && Spaced(p, acts)
    && b.lastCmdCycle + p.tCL < minRespCycle
    && (acts != [] ==> b.lastActCycle == acts[0].cycle && b.minPreCycle >= b.lastActCycle + p.tRAS)
    && (b.open ==> acts != [] && acts[0].row == b.openRow && b.lastCmdCycle >= b.lastActCycle + p.tRCD)
  }

  ghost predicate RankOk(p: Params, window: seq<nat>, acts: seq<nat>) {
    Respects(window, acts, p.tFAW, 4)
  }

  lemma WindowFull(p: Params, window: seq<nat>, acts: seq<nat>)
    requires RankOk(p, window, acts)
    ensures |window| == 4
  {
    WindowCovers(window, acts, p.tFAW, 4, 0);
  }

  /** When a column command has done with its row: a read after tRTP, a write tWR after the end of its burst. */
  function DoneWithRow(p: Params, c: Cmd): nat {
    if c.write then c.burstEnd + p.tWR else c.cycle + p.tRTP
  }

  /** A column command finds its row open: its bank was activated for that row, not again between the two, nor after
      the command before it had done with the row and the bank could be precharged. */
  ghost predicate Uses(p: Params, c: Cmd, acts: seq<Act>) {
    && Act(c.act, c.row) in acts
    && forall a | a in acts :: a.cycle <= c.act || (a.cycle >= c.cycle + p.tRP && a.cycle >= DoneWithRow(p, c) + p.tRP)
  }

  ghost predicate UsesOk(p: Params, banks: seq<Bank>, h: History)
    requires |h.acts| == |banks|
  {
    forall c | c in h.cmds :: UsesIn(p, c, banks, h.acts)
  }

  ghost predicate UsesIn(p: Params, c: Cmd, banks: seq<Bank>, acts: seq<seq<Act>>) {
    && c.bank < |banks| == |acts| && banks[c.bank].minPreCycle >= c.cycle
    && banks[c.bank].minPreCycle >= DoneWithRow(p, c) && Uses(p, c, acts[c.bank])
  }

  predicate Outside(cycle: nat, f: Refreshing) {
    cycle <= f.start || cycle >= f.done
  }

  /** No command of a bank falls into a refresh, nor may one yet. */
  ghost predicate BankClear(p: Params, b: Bank, acts: seq<Act>, f: Refreshing) {
    && b.minPreCycle + p.tRP >= f.done && (b.open ==> b.lastActCycle >= f.done)
    && forall a | a in acts :: Outside(a.cycle, f)
  }

  ghost predicate RefreshesOk(p: Params, banks: seq<Bank>, h: History)
    requires |h.acts| == |banks|
  {
    forall f | f in h.refreshes ::
      && f.done == f.start + p.tRFC && (forall b: nat | b < |banks| :: BankClear(p, banks[b], h.acts[b], f))
      && (forall c | c in h.cmds :: Outside(c.cycle, f))
  }

  ghost predicate Inv(p: Params, d: Dram, h: History) {
    && p.Ok() && |h.acts| == |d.banks| && |h.rankActs| == |d.windows|
    && d.minRespCycle > p.tCL + p.tBL
    && (forall b: nat | b < |d.banks| :: BankOk(p, d.banks[b], h.acts[b], d.minRespCycle))
    && (forall r: nat | r < |d.windows| :: RankOk(p, d.windows[r], h.rankActs[r]))
    && CmdsOk(p, h.cmds) && UsesOk(p, d.banks, h) && RefreshesOk(p, d.banks, h)
    && (h.cmds != [] ==> h.cmds[0].burstEnd == d.minRespCycle && h.cmds[0].write == d.lastCmdWasWrite)
  }

  // ---- issuing a request

  /** The earliest column command for a request that is served now: not before the data bus is free for its burst,
      a write-to-read turnaround has passed, and the row is open. */
  function CmdCycle(p: Params, d: Dram, b: Bank, r: Request, curCycle: nat, window: nat): nat
    requires d.minRespCycle > p.tCL
  {
    var c := Max(curCycle, d.minRespCycle - p.tCL);
    var w := if d.lastCmdWasWrite && !r.write then Max(c, d.minRespCycle + p.tWTR) else c;
    if RowHit(b, r.row) then w else Max(w, ActCycle(p, b, r.row, r.arrivalCycle, window) + p.tRCD)
  }

  /** The bank after the request; keepOpen says that no auto-precharge follows it. */
  function BankAfter(p: Params, d: Dram, b: Bank, r: Request, curCycle: nat, window: nat, keepOpen: bool): Bank
    requires d.minRespCycle > p.tCL
  {
    var hit := RowHit(b, r.row);
    var act := if hit then b.lastActCycle else ActCycle(p, b, r.row, r.arrivalCycle, window);
    var cmd := CmdCycle(p, d, b, r, curCycle, window);
    var pre := if hit || !b.open then b.minPreCycle else Max(r.arrivalCycle, b.minPreCycle) + p.tRAS;
    var done := cmd + p.tCL + p.tBL;
    Bank(r.row, keepOpen,
         Max(pre, Max(act + p.tRAS, if r.write then done + p.tWR else cmd + p.tRTP)),
         act, cmd, r.rowHitSeq)
  }

  function Issued(p: Params, d: Dram, rank: nat, r: Request, curCycle: nat, keepOpen: bool): Dram
    requires d.minRespCycle > p.tCL && r.bank < |d.banks| && rank < |d.windows| && |d.windows[rank]| > 0
  {
    var b, w := d.banks[r.bank], d.windows[rank];
    var act := ActCycle(p, b, r.row, r.arrivalCycle, w[0]);
    Dram(d.banks[r.bank := BankAfter(p, d, b, r, curCycle, w[0], keepOpen)],
         if RowHit(b, r.row) then d.windows else d.windows[rank := Inserted(w, act)],
         CmdCycle(p, d, b, r, curCycle, w[0]) + p.tCL + p.tBL, r.write)
  }

  ghost function Logged(p: Params, d: Dram, h: History, rank: nat, r: Request, curCycle: nat): History
    requires d.minRespCycle > p.tCL && r.bank < |d.banks| && rank < |d.windows| && |d.windows[rank]| > 0
    requires |h.acts| == |d.banks| && |h.rankActs| == |d.windows|
  {
    var b, w := d.banks[r.bank], d.windows[rank];
    var act := if RowHit(b, r.row) then b.lastActCycle else ActCycle(p, b, r.row, r.arrivalCycle, w[0]);
    var cmd := CmdCycle(p, d, b, r, curCycle, w[0]);
    var c := Cmd(r.bank, r.row, r.write, cmd, act, cmd + p.tCL, cmd + p.tCL + p.tBL);
    if RowHit(b, r.row) then h.(cmds := [c] + h.cmds)
    else
      h.(cmds := [c] + h.cmds, acts := h.acts[r.bank := [Act(act, r.row)] + h.acts[r.bank]],
         rankActs := h.rankActs[rank := [act] + h.rankActs[rank]])
  }

  /** The bank could be activated at this cycle for another row than the open one: the request is there, tRP have passed
      since the bank could be precharged, and for an open bank since the request came and had it precharged, and tRRD
      and tFAW are kept. */
  ghost predicate MayActivate(p: Params, b: Bank, arrival: nat, window: nat, cycle: nat) {
    && cycle >= arrival && cycle >= b.minPreCycle + p.tRP && (b.open ==> cycle >= arrival + p.tRP)
    && cycle >= b.lastActCycle + p.tRRD && cycle >= window + p.tFAW
  }

  /** The column command could be issued at this cycle: the data bus is free for its burst, a write-to-read turnaround
      has passed, and the row is open, or was opened tRCD ago. */
  ghost predicate MayIssue(p: Params, d: Dram, b: Bank, r: Request, curCycle: nat, window: nat, cycle: nat) {
    && cycle >= curCycle && cycle + p.tCL >= d.minRespCycle
    && (d.lastCmdWasWrite && !r.write ==> cycle >= d.minRespCycle + p.tWTR)
    && (RowHit(b, r.row) || exists a: nat :: MayActivate(p, b, r.arrivalCycle, window, a) && cycle >= a + p.tRCD)
  }

  /** The bank could be precharged at this cycle after the command: it could before, its row is restored, and the
      command has done with it. */
  ghost predicate MayPrecharge(p: Params, b: Bank, c: Cmd, cycle: nat) {
    cycle >= b.minPreCycle && cycle >= c.act + p.tRAS && cycle >= DoneWithRow(p, c)
  }

  /** But for the data bus, the request's command could be issued at this cycle; a bank takes one command a cycle. */
  ghost predicate MayBeReady(p: Params, b: Bank, r: Request, window: nat, cycle: nat) {
    if RowHit(b, r.row) then cycle >= r.arrivalCycle && cycle > b.lastCmdCycle
    else exists a: nat :: MayActivate(p, b, r.arrivalCycle, window, a) && cycle >= a + p.tRCD
  }

  /** Every command is issued as soon as it may be. */
  lemma IssuedAtOnce(p: Params, d: Dram, b: Bank, r: Request, curCycle: nat, window: nat)
    requires d.minRespCycle > p.tCL
    ensures forall x: nat ::
      MayActivate(p, b, r.arrivalCycle, window, x) <==> ActCycle(p, b, r.row, r.arrivalCycle, window) <= x
    ensures forall x: nat :: MayIssue(p, d, b, r, curCycle, window, x) <==> CmdCycle(p, d, b, r, curCycle, window) <= x
  {
    assert MayActivate(p, b, r.arrivalCycle, window, ActCycle(p, b, r.row, r.arrivalCycle, window));
  }

  /** A request is found ready from the first cycle on at which it may be, and if it is, the data bus is free, and
      nothing has to turn around, it is issued then. */
  lemma ReadyIsIssuable(p: Params, d: Dram, b: Bank, r: Request, curCycle: nat, window: nat)
    requires d.minRespCycle > p.tCL && b.lastCmdCycle + p.tCL < d.minRespCycle
    ensures forall x: nat :: MayBeReady(p, b, r, window, x) <==> FindMinCmdCycle(p, b, r, window) <= x
    ensures FindMinCmdCycle(p, b, r, window) <= curCycle && curCycle + p.tCL >= d.minRespCycle &&
            (d.lastCmdWasWrite && !r.write ==> curCycle >= d.minRespCycle + p.tWTR) ==>
              CmdCycle(p, d, b, r, curCycle, window) == curCycle
  {
    assert MayActivate(p, b, r.arrivalCycle, window, ActCycle(p, b, r.row, r.arrivalCycle, window));
  }

  /** The request's row is opened, if it is not open, and its column command is issued, each as soon as it may be; both
      are logged, and no other bank or rank changes. The bank may be precharged once its row is restored and the command
      has done with it. */
  ghost predicate Does(p: Params, d: Dram, h: History, rank: nat, r: Request, curCycle: nat, e: Dram, g: History)
    requires r.bank < |d.banks| == |h.acts| && rank < |d.windows| == |h.rankActs| && |d.windows[rank]| == 4
  {
    && |g.cmds| == |h.cmds| + 1 && g.cmds[1..] == h.cmds && g.refreshes == h.refreshes && |e.banks| == |d.banks|
    && var b, w, c := d.banks[r.bank], d.windows[rank], g.cmds[0];
    && c == Cmd(r.bank, r.row, r.write, c.cycle, c.act, c.cycle + p.tCL, c.cycle + p.tCL + p.tBL)
    && (forall x: nat :: MayIssue(p, d, b, r, curCycle, w[0], x) <==> c.cycle <= x)
    && e.minRespCycle == c.burstEnd && e.lastCmdWasWrite == r.write
    && (if RowHit(b, r.row) then c.act == b.lastActCycle && g.acts == h.acts && g.rankActs == h.rankActs
        else
          && (forall x: nat :: MayActivate(p, b, r.arrivalCycle, w[0], x) <==> c.act <= x)
          && g.acts == h.acts[r.bank := [Act(c.act, r.row)] + h.acts[r.bank]]
          && g.rankActs == h.rankActs[rank := [c.act] + h.rankActs[rank]])
    && |e.windows| == |d.windows| && (forall k | 0 <= k < |d.windows| && k != rank :: e.windows[k] == d.windows[k])
    && var b' := e.banks[r.bank];
    && e.banks == d.banks[r.bank := b']
    && b' == Bank(r.row, b'.open, b'.minPreCycle, c.act, c.cycle, r.rowHitSeq)
    && forall x: nat :: MayPrecharge(p, b, c, x) <==> b'.minPreCycle <= x
  }

  lemma IssuedDoes(p: Params, d: Dram, h: History, rank: nat, r: Request, curCycle: nat, keepOpen: bool)
    requires r.bank < |d.banks| == |h.acts| && rank < |d.windows| == |h.rankActs| && |d.windows[rank]| == 4
    requires d.minRespCycle > p.tCL
    ensures Does(p, d, h, rank, r, curCycle, Issued(p, d, rank, r, curCycle, keepOpen),
                 Logged(p, d, h, rank, r, curCycle))
  {
    var b, w := d.banks[r.bank], d.windows[rank][0];
    IssuedAtOnce(p, d, b, r, curCycle, w);
    PrechargeAtOnce(p, d, b, r, curCycle, w, keepOpen);
    hide MayIssue, MayActivate, MayPrecharge, CmdCycle, ActCycle, BankAfter, DoneWithRow;
    var g := Logged(p, d, h, rank, r, curCycle);
    assert g.cmds[1..] == h.cmds;
  }

  lemma PrechargeAtOnce(p: Params, d: Dram, b: Bank, r: Request, curCycle: nat, window: nat, keepOpen: bool)
    requires d.minRespCycle > p.tCL
    ensures var cmd, b' := CmdCycle(p, d, b, r, curCycle, window), BankAfter(p, d, b, r, curCycle, window, keepOpen);
      var act := if RowHit(b, r.row) then b.lastActCycle else ActCycle(p, b, r.row, r.arrivalCycle, window);
      var c := Cmd(r.bank, r.row, r.write, cmd, act, cmd + p.tCL, cmd + p.tCL + p.tBL);
      && b' == Bank(r.row, keepOpen, b'.minPreCycle, act, cmd, r.rowHitSeq)
      && forall x: nat :: MayPrecharge(p, b, c, x) <==> b'.minPreCycle <= x
  {
  }

  /** Issuing keeps every timing constraint of every command and activation so far, and the bank's commands advance. */
  lemma IssueKeepsTiming(p: Params, d: Dram, h: History, rank: nat, r: Request, curCycle: nat, keepOpen: bool)
    requires Inv(p, d, h) && r.bank < |d.banks| && rank < |d.windows|
    ensures |d.windows[rank]| == 4
    ensures Inv(p, Issued(p, d, rank, r, curCycle, keepOpen), Logged(p, d, h, rank, r, curCycle))
    ensures d.banks[r.bank].lastCmdCycle < CmdCycle(p, d, d.banks[r.bank], r, curCycle, d.windows[rank][0])
  {
    assert RankOk(p, d.windows[rank], h.rankActs[rank]);
    WindowFull(p, d.windows[rank], h.rankActs[rank]);
    IssueKeepsBanks(p, d, h, rank, r, curCycle, keepOpen);
    IssueKeepsRanks(p, d, h, rank, r, curCycle, keepOpen);
    IssueKeepsCmds(p, d, h, rank, r, curCycle);
    IssueKeepsUses(p, d, h, rank, r, curCycle, keepOpen);
    IssueKeepsRefreshes(p, d, h, rank, r, curCycle, keepOpen);
  }

  /** The bank that a request is issued to stays clear of a past refresh. */
  lemma IssueStaysClear(p: Params, d: Dram, b: Bank, acts: seq<Act>, r: Request, curCycle: nat, window: nat,
                        keepOpen: bool,
                        f: Refreshing)
    requires p.Ok() && d.minRespCycle > p.tCL && BankOk(p, b, acts, d.minRespCycle) && BankClear(p, b, acts, f)
    ensures var act := Act(ActCycle(p, b, r.row, r.arrivalCycle, window), r.row);
      && BankClear(p, BankAfter(p, d, b, r, curCycle, window, keepOpen),
                   if RowHit(b, r.row) then acts else [act] + acts, f)
      && CmdCycle(p, d, b, r, curCycle, window) >= f.done
  {
    IssueKeepsBank(p, d, b, acts, r, curCycle, window, keepOpen);
    PrechargeMovesOn(p, d, b, r, curCycle, window, keepOpen);
    var act := Act(ActCycle(p, b, r.row, r.arrivalCycle, window), r.row);
    forall a | a in [act] + acts && !RowHit(b, r.row) ensures Outside(a.cycle, f) {
      assert a == act || a in acts;
    }
  }

  lemma IssueKeepsRefreshes(p: Params, d: Dram, h: History, rank: nat, r: Request, curCycle: nat, keepOpen: bool)
    requires Inv(p, d, h) && r.bank < |d.banks| && rank < |d.windows| && |d.windows[rank]| > 0
    ensures RefreshesOk(p, Issued(p, d, rank, r, curCycle, keepOpen).banks, Logged(p, d, h, rank, r, curCycle))
  {
    var e, g := Issued(p, d, rank, r, curCycle, keepOpen), Logged(p, d, h, rank, r, curCycle);
    var w := d.windows[rank][0];
    assert BankOk(p, d.banks[r.bank], h.acts[r.bank], d.minRespCycle);
    hide BankAfter, CmdCycle, ActCycle, CmdsOk, RankOk, UsesOk, BankOk, BankClear;
    forall f | f in g.refreshes
      ensures f.done == f.start + p.tRFC && forall b: nat | b < |e.banks| :: BankClear(p, e.banks[b], g.acts[b], f)
      ensures forall c | c in g.cmds :: Outside(c.cycle, f)
    {
      assert f in h.refreshes && BankClear(p, d.banks[r.bank], h.acts[r.bank], f);
      IssueStaysClear(p, d, d.banks[r.bank], h.acts[r.bank], r, curCycle, w, keepOpen, f);
      forall b: nat | b < |e.banks| ensures BankClear(p, e.banks[b], g.acts[b], f) {
        assert BankClear(p, d.banks[b], h.acts[b], f);
      }
      forall c | c in g.cmds ensures Outside(c.cycle, f) {
        assert c == g.cmds[0] || c in h.cmds;
      }
    }
  }

  lemma UsesNext(p: Params, c: Cmd, acts: seq<Act>, act: Act)
    requires Uses(p, c, acts) && act.cycle >= c.cycle + p.tRP && act.cycle >= DoneWithRow(p, c) + p.tRP
    ensures Uses(p, c, [act] + acts)
  {
    forall a | a in [act] + acts
      ensures a.cycle <= c.act || (a.cycle >= c.cycle + p.tRP && a.cycle >= DoneWithRow(p, c) + p.tRP)
    {
      assert a == act || a in acts;
    }
  }

  lemma UsesNewest(p: Params, c: Cmd, acts: seq<Act>)
    requires Spaced(p, acts) && acts != [] && acts[0] == Act(c.act, c.row)
    ensures Uses(p, c, acts)
  {
    forall a | a in acts ensures a.cycle <= c.act {
      var j :| 0 <= j < |acts| && acts[j] == a;
      assert j > 0 ==> acts[0].cycle >= acts[j].cycle;
    }
  }

  /** A bank can be precharged no earlier than it could before, nor than its last command has done with its row. */
  lemma PrechargeMovesOn(p: Params, d: Dram, b: Bank, r: Request, curCycle: nat, window: nat, keepOpen: bool)
    requires d.minRespCycle > p.tCL
    ensures BankAfter(p, d, b, r, curCycle, window, keepOpen).minPreCycle >= b.minPreCycle
    ensures var cmd := CmdCycle(p, d, b, r, curCycle, window);
      var pre := BankAfter(p, d, b, r, curCycle, window, keepOpen).minPreCycle;
      && pre >= cmd
      && forall c: Cmd | c.write == r.write && c.cycle == cmd && c.burstEnd == cmd + p.tCL + p.tBL ::
          pre >= DoneWithRow(p, c)
    ensures ActCycle(p, b, r.row, r.arrivalCycle, window) >= b.minPreCycle + p.tRP
  {
  }

  lemma IssueKeepsUses(p: Params, d: Dram, h: History, rank: nat, r: Request, curCycle: nat, keepOpen: bool)
    requires Inv(p, d, h) && r.bank < |d.banks| && rank < |d.windows| && |d.windows[rank]| > 0
    ensures UsesOk(p, Issued(p, d, rank, r, curCycle, keepOpen).banks, Logged(p, d, h, rank, r, curCycle))
  {
    var e, g := Issued(p, d, rank, r, curCycle, keepOpen), Logged(p, d, h, rank, r, curCycle);
    var b, w := d.banks[r.bank], d.windows[rank][0];
    assert BankOk(p, b, h.acts[r.bank], d.minRespCycle);
    IssueKeepsBank(p, d, b, h.acts[r.bank], r, curCycle, w, keepOpen);
    PrechargeMovesOn(p, d, b, r, curCycle, w, keepOpen);
    UsesNewest(p, g.cmds[0], g.acts[r.bank]);
    hide BankAfter, CmdCycle, ActCycle, CmdsOk, BankOk, RankOk, RefreshesOk, Uses;
    assert g.acts == h.acts[r.bank := g.acts[r.bank]];
    forall c | c in g.cmds ensures UsesIn(p, c, e.banks, g.acts) {
      if c != g.cmds[0] {
        assert c in h.cmds;
        UseKept(p, c, d.banks, h.acts, r.bank, e.banks[r.bank], g.acts[r.bank]);
      }
    }
  }

  /** Another command of a bank leaves the earlier ones their activations. */
  lemma UseKept(p: Params, c: Cmd, banks: seq<Bank>, acts: seq<seq<Act>>, k: nat, bank: Bank, bankActs: seq<Act>)
    requires UsesIn(p, c, banks, acts) && k < |banks| && bank.minPreCycle >= banks[k].minPreCycle
    requires bankActs == acts[k] ||
      (bankActs != [] && bankActs == [bankActs[0]] + acts[k] && bankActs[0].cycle >= banks[k].minPreCycle + p.tRP)
    ensures UsesIn(p, c, banks[k := bank], acts[k := bankActs])
  {
    if c.bank == k && bankActs != acts[k] {
      UsesNext(p, c, acts[k], bankActs[0]);
    }
  }

  lemma SpacedNext(p: Params, acts: seq<Act>, act: Act)
    requires Spaced(p, acts) && (acts != [] ==> act.cycle >= acts[0].cycle + Max(p.tRAS + p.tRP, p.tRRD))
    ensures Spaced(p, [act] + acts)
  {
    var s := [act] + acts;
    forall i, j | 0 <= i < j < |s| ensures s[i].cycle >= s[j].cycle + Max(p.tRAS + p.tRP, p.tRRD) {
      if i == 0 && j > 1 {
        assert acts[0].cycle >= acts[j - 1].cycle + Max(p.tRAS + p.tRP, p.tRRD);
      }
    }
  }

  /** The bank that a request is issued to. */
  lemma IssueKeepsBank(p: Params, d: Dram, b: Bank, acts: seq<Act>, r: Request, curCycle: nat, window: nat,
                       keepOpen: bool)
    requires p.Ok() && d.minRespCycle > p.tCL && BankOk(p, b, acts, d.minRespCycle)
    ensures var cmd := CmdCycle(p, d, b, r, curCycle, window);
      var act := ActCycle(p, b, r.row, r.arrivalCycle, window);
      && b.lastCmdCycle < cmd && cmd + p.tCL >= d.minRespCycle
      && cmd >= (if RowHit(b, r.row) then b.lastActCycle else act) + p.tRCD
      && act >= window + p.tFAW
      && BankOk(p, BankAfter(p, d, b, r, curCycle, window, keepOpen),
                if RowHit(b, r.row) then acts else [Act(act, r.row)] + acts,
                cmd + p.tCL + p.tBL)
  {
    var act := ActCycle(p, b, r.row, r.arrivalCycle, window);
    if !RowHit(b, r.row) {
      SpacedNext(p, acts, Act(act, r.row));
    }
  }

  lemma IssueKeepsBanks(p: Params, d: Dram, h: History, rank: nat, r: Request, curCycle: nat, keepOpen: bool)
    requires Inv(p, d, h) && r.bank < |d.banks| && rank < |d.windows| && |d.windows[rank]| > 0
    ensures var e, g := Issued(p, d, rank, r, curCycle, keepOpen), Logged(p, d, h, rank, r, curCycle);
      forall b: nat | b < |e.banks| :: BankOk(p, e.banks[b], g.acts[b], e.minRespCycle)
  {
    var e, g := Issued(p, d, rank, r, curCycle, keepOpen), Logged(p, d, h, rank, r, curCycle);
    IssueKeepsBank(p, d, d.banks[r.bank], h.acts[r.bank], r, curCycle, d.windows[rank][0], keepOpen);
    forall b: nat | b < |e.banks| ensures BankOk(p, e.banks[b], g.acts[b], e.minRespCycle) {
      if b != r.bank {
        assert BankOk(p, d.banks[b], h.acts[b], d.minRespCycle);
        assert e.banks[b] == d.banks[b] && g.acts[b] == h.acts[b];
      }
    }
  }

  lemma IssueKeepsRanks(p: Params, d: Dram, h: History, rank: nat, r: Request, curCycle: nat, keepOpen: bool)
    requires Inv(p, d, h) && r.bank < |d.banks| && rank < |d.windows| && |d.windows[rank]| > 0
    ensures var e, g := Issued(p, d, rank, r, curCycle, keepOpen), Logged(p, d, h, rank, r, curCycle);
      forall k: nat | k < |e.windows| :: RankOk(p, e.windows[k], g.rankActs[k])
  {
    var e, g := Issued(p, d, rank, r, curCycle, keepOpen), Logged(p, d, h, rank, r, curCycle);
    forall k: nat | k < |e.windows| ensures RankOk(p, e.windows[k], g.rankActs[k]) {
      assert RankOk(p, d.windows[k], h.rankActs[k]);
      if k == rank && !RowHit(d.banks[r.bank], r.row) {
        assert g.rankActs[k][1..] == h.rankActs[k];
      }
    }
  }

  lemma CmdsNext(p: Params, cmds: seq<Cmd>, c: Cmd)
    requires CmdsOk(p, cmds) && c.cycle >= c.act + p.tRCD
    requires c.burstStart == c.cycle + p.tCL && c.burstEnd == c.burstStart + p.tBL
    requires cmds != [] ==>
      cmds[0].burstEnd <= c.burstStart && (cmds[0].write && !c.write ==> c.cycle >= cmds[0].burstEnd + p.tWTR)
    ensures CmdsOk(p, [c] + cmds)
  {
    var s := [c] + cmds;
    forall i, j | 0 <= i < j < |s| ensures s[j].burstEnd <= s[i].burstStart {
      if i == 0 && j > 1 {
        assert cmds[j - 1].burstEnd <= cmds[0].burstStart;
      }
    }
    forall i | 0 <= i < |s| - 1 && s[i + 1].write && !s[i].write ensures s[i].cycle >= s[i + 1].burstEnd + p.tWTR {
      if i > 0 {
        assert cmds[i - 1].cycle >= cmds[i - 1 + 1].burstEnd + p.tWTR;
      }
    }
  }

  lemma IssueKeepsCmds(p: Params, d: Dram, h: History, rank: nat, r: Request, curCycle: nat)
    requires Inv(p, d, h) && r.bank < |d.banks| && rank < |d.windows| && |d.windows[rank]| > 0
    ensures CmdsOk(p, Logged(p, d, h, rank, r, curCycle).cmds)
  {
    var b, w := d.banks[r.bank], d.windows[rank];
    assert BankOk(p, b, h.acts[r.bank], d.minRespCycle);
    IssueKeepsBank(p, d, b, h.acts[r.bank], r, curCycle, w[0], false);
    var g := Logged(p, d, h, rank, r, curCycle);
    CmdsNext(p, h.cmds, g.cmds[0]);
  }

  // ---- refreshes

  /** All banks are idle from here on: the refresh may start, and could not any earlier. */
  function RefreshStart(banks: seq<Bank>, memCycle: nat): (c: nat)
    ensures c >= memCycle
    ensures forall b: nat | b < |banks| :: c >= banks[b].minPreCycle && c >= banks[b].lastCmdCycle
    ensures c == memCycle || exists b: nat :: b < |banks| && (c == banks[b].minPreCycle || c == banks[b].lastCmdCycle)
  {
    if banks == [] then memCycle
    else
      var n := |banks| - 1;
      Max(RefreshStart(banks[..n], memCycle), Max(banks[n].minPreCycle, banks[n].lastCmdCycle))
  }

  function Refreshed(p: Params, d: Dram, memCycle: nat): Dram
    requires p.tRFC >= p.tRP
  {
    var done := RefreshStart(d.banks, memCycle) + p.tRFC;
    d.(banks := seq(|d.banks|, b requires 0 <= b < |d.banks| =>
                      d.banks[b].(minPreCycle := done - p.tRP, open := false)))
  }

  ghost function RefreshLogged(p: Params, d: Dram, h: History, memCycle: nat): History {
    var start := RefreshStart(d.banks, memCycle);
    h.(refreshes := [Refreshing(start, start + p.tRFC)] + h.refreshes)
  }

  /** Once the refresh is over, and no earlier, every bank may be activated again, as far as the refresh goes. */
  lemma ActivatesAfterRefresh(p: Params, d: Dram, h: History, memCycle: nat, b: nat, arrival: nat, window: nat, x: nat)
    requires p.tRFC >= p.tRP && b < |d.banks|
    ensures var e, f := Refreshed(p, d, memCycle).banks[b], RefreshLogged(p, d, h, memCycle).refreshes[0];
      && !e.open && f.start >= memCycle && f.done == f.start + p.tRFC
      && (MayActivate(p, e, arrival, window, x) <==>
            x >= f.done && x >= arrival && x >= e.lastActCycle + p.tRRD && x >= window + p.tFAW)
  {
    assert RefreshStart(d.banks, memCycle) >= memCycle;
  }

  /** A refresh keeps all constraints, and stays clear of all commands so far. */
  lemma RefreshKeepsTiming(p: Params, d: Dram, h: History, memCycle: nat)
    requires Inv(p, d, h)
    ensures Inv(p, Refreshed(p, d, memCycle), RefreshLogged(p, d, h, memCycle))
  {
    var e, g := Refreshed(p, d, memCycle), RefreshLogged(p, d, h, memCycle);
    forall b: nat | b < |d.banks| ensures BankOk(p, e.banks[b], h.acts[b], e.minRespCycle) {
      assert BankOk(p, d.banks[b], h.acts[b], d.minRespCycle);
    }
    forall c | c in g.cmds ensures UsesIn(p, c, e.banks, g.acts) {
      assert UsesIn(p, c, d.banks, h.acts);
    }
    forall f | f in g.refreshes
      ensures f.done == f.start + p.tRFC && forall b: nat | b < |e.banks| :: BankClear(p, e.banks[b], g.acts[b], f)
      ensures forall c | c in g.cmds :: Outside(c.cycle, f)
    {
      if f == g.refreshes[0] {
        NewRefreshIsClear(p, d, h, memCycle);
      } else {
        assert f in h.refreshes;
        OldRefreshStaysClear(p, d, h, memCycle, f);
      }
    }
  }

  lemma NewRefreshIsClear(p: Params, d: Dram, h: History, memCycle: nat)
    requires Inv(p, d, h)
    ensures var e, f := Refreshed(p, d, memCycle), RefreshLogged(p, d, h, memCycle).refreshes[0];
      && |e.banks| == |d.banks|
      && (forall b: nat | b < |d.banks| :: BankClear(p, e.banks[b], h.acts[b], f))
      && forall c | c in h.cmds :: Outside(c.cycle, f)
  {
    var start := RefreshStart(d.banks, memCycle);
    forall b: nat, a | b < |d.banks| && a in h.acts[b] ensures a.cycle <= start {
      assert BankOk(p, d.banks[b], h.acts[b], d.minRespCycle);
      var j :| 0 <= j < |h.acts[b]| && h.acts[b][j] == a;
      assert j > 0 ==> h.acts[b][0].cycle >= h.acts[b][j].cycle;
    }
    forall c | c in h.cmds ensures c.cycle <= start {
      assert UsesIn(p, c, d.banks, h.acts);
    }
  }

  lemma OldRefreshStaysClear(p: Params, d: Dram, h: History, memCycle: nat, f: Refreshing)
    requires Inv(p, d, h) && f in h.refreshes
    ensures var e := Refreshed(p, d, memCycle);
      && |e.banks| == |d.banks|
      && forall b: nat | b < |d.banks| :: BankClear(p, e.banks[b], h.acts[b], f)
  {
    forall b: nat | b < |d.banks| ensures BankClear(p, Refreshed(p, d, memCycle).banks[b], h.acts[b], f) {
      assert BankClear(p, d.banks[b], h.acts[b], f);
    }
  }

  /** Over any run, nothing is issued in the tRFC cycles of a refresh: no activation and no column command. */
  lemma NothingDuringRefreshes(p: Params, d: Dram, h: History, f: Refreshing)
    requires Inv(p, d, h) && f in h.refreshes
    ensures f.done == f.start + p.tRFC
    ensures forall b, a | 0 <= b < |h.acts| && a in h.acts[b] :: a.cycle <= f.start || a.cycle >= f.done
    ensures forall c | c in h.cmds :: c.cycle <= f.start || c.cycle >= f.done
  {
    forall b: nat, a | b < |h.acts| && a in h.acts[b] ensures Outside(a.cycle, f) {
      assert BankClear(p, d.banks[b], h.acts[b], f);
    }
    assert forall c | c in h.cmds :: Outside(c.cycle, f);
  }

  /** Over any run, a read waits for every write before it, tWTR after the end of its burst. */
  lemma {:induction false} ReadsWaitForWrites(p: Params, cmds: seq<Cmd>, i: nat, j: nat)
    requires CmdsOk(p, cmds) && i < j < |cmds| && cmds[j].write && !cmds[i].write
    ensures cmds[i].cycle >= cmds[j].burstEnd + p.tWTR
    decreases j - i
  {
    if j == i + 1 {
    } else if cmds[i + 1].write {
      assert cmds[i].cycle >= cmds[i + 1].burstEnd + p.tWTR;
      assert cmds[j].burstEnd <= cmds[i + 1].burstStart;
    } else {
      ReadsWaitForWrites(p, cmds, i + 1, j);
      assert cmds[i + 1].burstEnd <= cmds[i].burstStart;
    }
  }

  /** Over any run: at most four activations of a rank in any tFAW cycles, and two of a bank at least tRAS + tRP, and
      tRRD, apart. */
  lemma ActivationsSpread(p: Params, d: Dram, h: History, rank: nat, bank: nat, x: int)
    requires Inv(p, d, h) && rank < |d.windows| && bank < |d.banks|
    ensures CountIn(h.rankActs[rank], x, x + p.tFAW) <= 4
    ensures forall i, j | 0 <= i < j < |h.acts[bank]| ::
      && h.acts[bank][i].cycle >= h.acts[bank][j].cycle + p.tRAS + p.tRP
      && h.acts[bank][i].cycle >= h.acts[bank][j].cycle + p.tRRD
  {
    assert RankOk(p, d.windows[rank], h.rankActs[rank]) && BankOk(p, d.banks[bank], h.acts[bank], d.minRespCycle);
    AtMostSizeInAnyWindow(d.windows[rank], h.rankActs[rank], p.tFAW, 4, x);
  }

  /** Over any run: the last activation of its bank before a column command was for its row, at least tRCD earlier. */
  lemma CommandsFindTheirRow(p: Params, d: Dram, h: History, i: nat)
    requires Inv(p, d, h) && i < |h.cmds|
    ensures var c := h.cmds[i];
      && c.bank < |h.acts| && Act(c.act, c.row) in h.acts[c.bank] && c.cycle >= c.act + p.tRCD
      && forall a | a in h.acts[c.bank] && a.cycle < c.cycle + p.tRP :: a.cycle <= c.act
  {
    assert UsesIn(p, h.cmds[i], d.banks, h.acts);
  }

  /** Over any run, refreshes or not: once a bank is activated again, tRP have passed since its earlier reads were done
      with their row, tRTP after the command, and its earlier writes, tWR after the end of their burst. */
  lemma PrechargesWaitForData(p: Params, d: Dram, h: History, i: nat, a: Act)
    requires Inv(p, d, h) && i < |h.cmds|
    ensures var c := h.cmds[i];
      c.bank < |h.acts| && (a in h.acts[c.bank] && a.cycle > c.act ==>
        a.cycle >= (if c.write then c.burstEnd + p.tWR else c.cycle + p.tRTP) + p.tRP)
  {
    assert UsesIn(p, h.cmds[i], d.banks, h.acts);
  }
}
