/** The two clock domains of src/ddr_mem.h: events run on system cycles, the controller on memory cycles. */
module DdrClock {
  import opened Arithmetic

  /** Frequencies in the same unit. The controller refuses to start unless mem < sys / 2. */
  datatype Clock = Clock(sys: nat, mem: nat)
  {
    ghost predicate Ok() {
      mem > 0 && !(mem >= sys / 2)
    }

    function SysToMem(sysCycle: nat): nat
      requires sys > 0
    {
      sysCycle * mem / sys + 1
    }

    function MemToSys(memCycle: nat): nat
      requires mem > 0
    {
      (memCycle + 1) * sys / mem
    }

    function MatchingMemToSys(memCycle: nat): nat
      requires mem > 0 && memCycle > 0
    {
      (2 * memCycle - 1) * sys / mem / 2
    }
  }

  /** A memory cycle, translated by MatchingMemToSys, comes back as the same memory cycle, and never as cycle 0 on
      the system side, which would mean that there is nothing to schedule. */
  lemma MatchingRoundTrip(k: Clock, m: nat)
    requires k.Ok() && m > 0
    ensures k.SysToMem(k.MatchingMemToSys(m)) == m && k.MatchingMemToSys(m) > 0
  {
    var y := (2 * m - 1) * k.sys;
    var a := y / k.mem;
    var s := a / 2;
    DivIs(y, k.mem, a);
    Halves(m, k.sys, k.mem, a, s);
    DivIs(s * k.mem, k.sys, m - 1);
    MulMono(1, 2 * m - 1, k.sys);
    if s == 0 {
      MulMono(a, 1, k.mem);
    }
  }

  lemma Halves(m: nat, sys: nat, mem: nat, a: nat, s: nat)
    requires m > 0 && 2 * mem + 2 <= sys && a * mem <= (2 * m - 1) * sys < a * mem + mem && s == a / 2
    ensures (m - 1) * sys <= s * mem < (m - 1) * sys + sys
  {
    assert (2 * m - 1) * sys == 2 * ((m - 1) * sys) + sys;
    assert a == 2 * s || a == 2 * s + 1;
    assert a * mem == 2 * (s * mem) || a * mem == 2 * (s * mem) + mem;
  }

  lemma SysToMemMonotone(k: Clock, s: nat, t: nat)
    requires k.Ok() && s <= t
    ensures k.SysToMem(s) <= k.SysToMem(t)
  {
    MulMono(s, t, k.mem);
    var p, q := s * k.mem / k.sys, t * k.mem / k.sys;
    DivIs(s * k.mem, k.sys, p);
    DivIs(t * k.mem, k.sys, q);
    if q < p {
      MulMono(q + 1, p, k.sys);
      Distribute(q, 1, k.sys);
    }
  }

  /** An event for a memory cycle that is not in the past runs at a system cycle that is not in the past either, and
      finds itself at just that memory cycle. */
  lemma EventHitsItsCycle(k: Clock, now: nat, m: nat)
    requires k.Ok() && m >= k.SysToMem(now)
    ensures var e := if k.MatchingMemToSys(m) >= now then k.MatchingMemToSys(m) else now;
      e >= now && e > 0 && k.SysToMem(e) == m
  {
    MatchingRoundTrip(k, m);
    if k.MatchingMemToSys(m) < now {
      SysToMemMonotone(k, k.MatchingMemToSys(m), now);
    }
  }

  /** A response at or after the present memory cycle is not in the past for the system. */
  lemma ResponseNotInThePast(k: Clock, now: nat, m: nat)
    requires k.Ok() && m >= k.SysToMem(now)
    ensures k.MemToSys(m) >= now
  {
    var p := now * k.mem / k.sys;
    DivIs(now * k.mem, k.sys, p);
    Distribute(p, 1, k.sys);
    MulMono(p + 1, m + 1, k.sys);
    var q := (m + 1) * k.sys / k.mem;
    DivIs((m + 1) * k.sys, k.mem, q);
    if q < now {
      MulMono(q + 1, now, k.mem);
      Distribute(q, 1, k.mem);
    }
  }

  /** Nor is it late: translated back, it comes one or two memory cycles later. */
  lemma ResponseIsClose(k: Clock, m: nat)
    requires k.Ok()
    ensures m + 1 <= k.SysToMem(k.MemToSys(m)) <= m + 2
  {
    var q := (m + 1) * k.sys / k.mem;
    DivIs((m + 1) * k.sys, k.mem, q);
    var r := q * k.mem / k.sys;
    DivIs(q * k.mem, k.sys, r);
    if r > m + 1 {
      MulMono(m + 2, r, k.sys);
      Distribute(m + 1, 1, k.sys);
    }
    if r < m {
      MulMono(r + 2, m + 1, k.sys);
      Distribute(r, 2, k.sys);
    }
  }
}
