/** The aging priority scheduler (proc.c of xv6-public_2) on one CPU. */
module Sched {
  import opened Params

  const ALPHA := 1
  const BETA := 2

  datatype State = UNUSED | EMBRYO | SLEEPING | RUNNABLE | RUNNING | ZOMBIE | CUSTOM_WAIT

  datatype Proc = Proc(state: State, pid: int, b: int, killed: bool, initPriority: int, rtime: int,
                       waitingTime: int, execTime: int, firstCpuTime: int, contextSwitches: int)

  /** calculate_dynamic_priority, over unbounded integers. */
  function Priority(p: Proc): int {
    p.initPriority - ALPHA * p.rtime + BETA * p.waitingTime
  }

  /** Considered by the scan: RUNNABLE and not in the background. */
  predicate Eligible(p: Proc) {
    p.state == RUNNABLE && p.b != 1
  }

  function Waited(p: Proc): Proc {
    if Eligible(p) then p.(waitingTime := p.waitingTime + 1) else p
  }

  /** x is preferred to y: a higher initial priority less one a tick run plus two a round
      waited, or the same and a pid no greater. */
  predicate Preferred(x: Proc, y: Proc) {
    var a, b := x.initPriority - x.rtime + 2 * x.waitingTime, y.initPriority - y.rtime + 2 * y.waitingTime;
    a > b || (a == b && x.pid <= y.pid)
  }

  /** The scan's choice over table t, taken before the waiting times go up. */
  ghost predicate Chosen(t: seq<Proc>, c: nat) {
    && c < |t| && Eligible(t[c])
    && forall q: nat :: q < |t| && Eligible(t[q]) ==> Preferred(t[c], t[q])
  }

  /** What one round may do to a process: the scan's aging, and for the chosen one
      the refund and its time on the CPU.  State, b and killed are up to whoever
      runs. */
  predicate Aged(p: Proc, p': Proc, chosen: bool) {
    && p'.initPriority == p.initPriority && p'.pid == p.pid
    && if chosen then p'.waitingTime == p.waitingTime && p'.rtime >= p.rtime
       else p'.waitingTime == Waited(p).waitingTime && p'.rtime == p.rtime
  }

  ghost predicate Round(t: seq<Proc>, t': seq<Proc>, c: nat) {
    Chosen(t, c) && |t'| == |t| && forall q: nat :: q < |t| ==> Aged(t[q], t'[q], q == c)
  }

  class Scheduler {
    const ptable: array<Proc>
    var ticks: nat
    var prevProc: int      // prev_proc as an index, -1 for null

    constructor (procs: seq<Proc>)
      requires |procs| == NPROC
      ensures ptable[..] == procs && ticks == 0 && prevProc == -1
    {
      ticks, prevProc := 0, -1;
      ptable := new Proc[NPROC](i requires 0 <= i < NPROC => procs[i]);
      new;
      assert ptable[..] == procs;
    }

    /** The scan of the process table: every eligible process ages by one, and the
        preferred one is chosen (-1 if there is none). */
    method Scan() returns (chosen: int)
      modifies ptable
      ensures forall q :: 0 <= q < ptable.Length ==> ptable[q] == Waited(old(ptable[q]))
      ensures forall q :: 0 <= q < ptable.Length ==> var p := old(ptable[q]);
                ptable[q] == p.(waitingTime := p.waitingTime + if p.state == RUNNABLE && p.b != 1 then 1 else 0)
      ensures chosen == -1 ==>
                forall q :: 0 <= q < ptable.Length ==> old(ptable[q]).state != RUNNABLE || old(ptable[q]).b == 1
      ensures chosen != -1 ==> 0 <= chosen && Chosen(old(ptable[..]), chosen)
    {
      ghost var t := ptable[..];
      var bestPriority := -0x7fff_ffff;
      chosen := -1;
      var p := 0;
      while p < ptable.Length
        invariant 0 <= p <= ptable.Length && -1 <= chosen < p
        invariant forall q :: 0 <= q < ptable.Length ==> ptable[q] == if q < p then Waited(t[q]) else t[q]
        invariant chosen == -1 ==> forall q :: 0 <= q < p ==> !Eligible(t[q])
        invariant chosen != -1 ==> Eligible(t[chosen]) && bestPriority == Priority(Waited(t[chosen]))
        invariant chosen != -1 ==> forall q :: 0 <= q < p && Eligible(t[q]) ==>
                  Preferred(Waited(t[chosen]), Waited(t[q]))
      {
        if ptable[p].state == RUNNABLE && ptable[p].b != 1 {
          ptable[p] := ptable[p].(waitingTime := ptable[p].waitingTime + 1);
          var dynPriority := Priority(ptable[p]);
          if chosen == -1 {
            chosen, bestPriority := p, dynPriority;
          } else if dynPriority > bestPriority {
            chosen, bestPriority := p, dynPriority;
          } else if dynPriority == bestPriority {
            if ptable[p].pid < ptable[chosen].pid {
              chosen, bestPriority := p, dynPriority;
            }
          }
        }
        p := p + 1;
      }
      if chosen != -1 {
        forall q: nat | q < |t| && Eligible(t[q]) ensures Preferred(t[chosen], t[q]) {
          assert Preferred(Waited(t[chosen]), Waited(t[q]));
        }
      }
    }

    /** One turn of the scheduler's loop.  While the chosen process has the CPU for
        `burst` ticks, it and its interrupts may leave any states, b and killed
        flags in the table (after).  The first time on the CPU is recorded once, and a
        context switch is counted when the choice changes. */
    method Turn(burst: nat, after: seq<(State, int, bool)>) returns (chosen: int)
      requires |after| == ptable.Length
      modifies ptable, this`ticks, this`prevProc
      ensures chosen == -1 ==> forall q :: 0 <= q < ptable.Length ==> ptable[q].state != RUNNABLE || ptable[q].b == 1
      ensures chosen == -1 ==> ptable[..] == old(ptable[..]) && ticks == old(ticks) && prevProc == old(prevProc)
      ensures chosen != -1 ==> 0 <= chosen && Round(old(ptable[..]), ptable[..], chosen)
      ensures chosen != -1 ==> ticks == old(ticks) + burst && prevProc == chosen
      ensures chosen != -1 ==> forall q :: 0 <= q < ptable.Length && q != chosen ==> var p := old(ptable[..])[q];
                ptable[q] == p.(waitingTime := p.waitingTime + (if p.state == RUNNABLE && p.b != 1 then 1 else 0),
                                state := after[q].0, b := after[q].1, killed := after[q].2)
      ensures chosen != -1 ==> var p, a := old(ptable[..])[chosen], after[chosen];
                ptable[chosen] == p.(rtime := p.rtime + burst, state := a.0, b := a.1,
                                     firstCpuTime := if p.firstCpuTime < 0 then old(ticks) else p.firstCpuTime,
                                     contextSwitches := p.contextSwitches + (if old(prevProc) != chosen then 1 else 0),
                                     killed := a.2 || (p.execTime > 0 && p.rtime + burst >= p.execTime))
    {
      hide Chosen;
      ghost var t := ptable[..];
      chosen := Scan();
      if chosen == -1 {
        assert forall q :: 0 <= q < ptable.Length ==> ptable[q] == t[q];
        return;
      }
      ghost var changed := prevProc != chosen;
      var startRun := ticks;
      Dispatch(chosen);
      Run(burst, after);
      Account(chosen, startRun);
      forall q: nat | q < ptable.Length ensures Aged(t[q], ptable[q], q == chosen) {
        TurnOne(t[q], q == chosen, startRun, burst, changed, after[q]);
      }
    }

    /** Up to swtch: the chosen process gets the CPU. */
    method Dispatch(chosen: nat)
      requires chosen < ptable.Length
      modifies ptable
      ensures forall x: nat :: x < ptable.Length ==>
                ptable[x] == if x == chosen then Dispatched(old(ptable[x]), ticks) else old(ptable[x])
    {
      if ptable[chosen].firstCpuTime < 0 {
        ptable[chosen] := ptable[chosen].(firstCpuTime := ticks);
      }
      ptable[chosen] := ptable[chosen].(waitingTime := ptable[chosen].waitingTime - 1, state := RUNNING);
    }

    /** swtch until the chosen process gives the CPU up: time passes, and the table's
        states change. */
    method Run(burst: nat, after: seq<(State, int, bool)>)
      requires |after| == ptable.Length
      modifies ptable, this`ticks
      ensures ticks == old(ticks) + burst
      ensures forall x: nat :: x < ptable.Length ==> ptable[x] == Left(old(ptable[x]), after[x])
    {
      ticks := ticks + burst;
      var q := 0;
      while q < ptable.Length
        invariant 0 <= q <= ptable.Length && ticks == old(ticks) + burst
        invariant forall x: nat :: x < ptable.Length ==>
                    ptable[x] == if x < q then Left(old(ptable[x]), after[x]) else old(ptable[x])
      {
        ptable[q] := ptable[q].(state := after[q].0, b := after[q].1, killed := after[q].2);
        q := q + 1;
      }
    }

    /** After swtch: the burst, the context switch and the execution limit. */
    method Account(chosen: nat, startRun: nat)
      requires chosen < ptable.Length && startRun <= ticks
      modifies ptable, this`prevProc
      ensures prevProc == chosen
      ensures forall x: nat :: x < ptable.Length ==>
                ptable[x] == if x == chosen then Accounted(old(ptable[x]), ticks - startRun, old(prevProc) != chosen)
                             else old(ptable[x])
    {
      ptable[chosen] := ptable[chosen].(rtime := ptable[chosen].rtime + (ticks - startRun));
      if prevProc != chosen {
        ptable[chosen] := ptable[chosen].(contextSwitches := ptable[chosen].contextSwitches + 1);
      }
      prevProc := chosen;
      if ptable[chosen].execTime > 0 {
        if ptable[chosen].rtime >= ptable[chosen].execTime {
          ptable[chosen] := ptable[chosen].(killed := true);
        }
      }
    }
  }

  function Dispatched(p: Proc, now: int): Proc {
    p.(firstCpuTime := if p.firstCpuTime < 0 then now else p.firstCpuTime, waitingTime := p.waitingTime - 1,
       state := RUNNING)
  }

  function Left(p: Proc, a: (State, int, bool)): Proc {
    p.(state := a.0, b := a.1, killed := a.2)
  }

  function Accounted(p: Proc, burst: nat, changed: bool): Proc {
    p.(rtime := p.rtime + burst, contextSwitches := p.contextSwitches + (if changed then 1 else 0),
       killed := p.killed || (p.execTime > 0 && p.rtime + burst >= p.execTime))
  }

  /** A whole turn, process by process. */
  lemma TurnOne(p: Proc, chosen: bool, now: nat, burst: nat, changed: bool, a: (State, int, bool))
    requires chosen ==> Eligible(p)
    ensures var w := Waited(p);
            Aged(p, if chosen then Accounted(Left(Dispatched(w, now), a), burst, changed) else Left(w, a), chosen)
  {
  }

  // ---------- what the priority is for ----------

  /** In a round each tick of its burst puts the chosen process back by one against every
      other, and each process left waiting gains two. */
  lemma RoundRanks(t: seq<Proc>, t': seq<Proc>, c: nat, q: nat, burst: nat)
    requires Round(t, t', c) && t'[c].rtime == t[c].rtime + burst && q < |t|
    ensures q == c ==> Priority(t'[q]) == Priority(t[q]) - burst
    ensures q != c ==> Priority(t'[q]) == Priority(t[q]) + if Eligible(t[q]) then 2 else 0
  {
    assert Aged(t[q], t'[q], q == c);
  }

  /** Of processes that started equal and have waited as long, one that has run least is
      chosen; and of those that have run as long too, the oldest. */
  lemma RunLeastFirst(t: seq<Proc>, c: nat, q: nat)
    requires Chosen(t, c) && q < |t| && Eligible(t[q])
    requires t[q].initPriority == t[c].initPriority && t[q].waitingTime == t[c].waitingTime
    ensures t[c].rtime < t[q].rtime || (t[c].rtime == t[q].rtime && t[c].pid <= t[q].pid)
  {
    assert Preferred(t[c], t[q]);
  }

  // ---------- bounded waiting ----------

  /** How far q is ahead of p. */
  function Gap(t: seq<Proc>, p: nat, q: nat): int
    requires p < |t| && q < |t|
  {
    Priority(t[q]) - Priority(t[p])
  }

  /** What q can still cost p. */
  function Cost(t: seq<Proc>, p: nat, q: nat): nat
    requires p < |t| && q < |t|
  {
    if q == p || Gap(t, p, q) < 0 then 0 else Gap(t, p, q) / BETA + 1
  }

  /** The sum, over the other processes with gap D >= 0, of D / BETA + 1. */
  function Potential(t: seq<Proc>, p: nat, n: nat): nat
    requires p < |t| && n <= |t|
  {
    if n == 0 then 0 else Potential(t, p, n - 1) + Cost(t, p, n - 1)
  }

  /** While p waits no gap grows, and the chosen process's falls by BETA at least. */
  lemma GapsShrink(t: seq<Proc>, t': seq<Proc>, c: nat, p: nat, q: nat)
    requires Round(t, t', c) && p < |t| && q < |t| && Eligible(t[p]) && c != p && q != p
    ensures Gap(t', p, q) <= Gap(t, p, q) - if q == c then BETA else 0
    ensures Cost(t', p, q) <= Cost(t, p, q) - if q == c then 1 else 0
    ensures q == c ==> Gap(t, p, q) >= 0
  {
    assert Aged(t[q], t'[q], q == c) && Aged(t[p], t'[p], false);
    assert Preferred(t[c], t[p]);
    if q == c && Gap(t', p, q) >= 0 {
      assert Gap(t', p, q) / BETA <= (Gap(t, p, q) - BETA) / BETA == Gap(t, p, q) / BETA - 1;
    }
  }

  lemma {:induction false} PotentialFalls(t: seq<Proc>, t': seq<Proc>, c: nat, p: nat, n: nat)
    requires Round(t, t', c) && p < |t| && Eligible(t[p]) && c != p && n <= |t|
    ensures Potential(t', p, n) <= Potential(t, p, n) - if c < n then 1 else 0
  {
    if n > 0 {
      PotentialFalls(t, t', c, p, n - 1);
      if n - 1 != p {
        GapsShrink(t, t', c, p, n - 1);
      }
    }
  }

  /** A run of rounds over a fixed set of processes in which p stays eligible. */
  ghost predicate Waiting(ts: seq<seq<Proc>>, cs: seq<nat>, p: nat) {
    && |ts| == |cs| + 1
    && (forall i: nat :: i < |ts| ==> p < |ts[i]| && Eligible(ts[i][p]))
    && (forall i: nat :: i < |cs| ==> Round(ts[i], ts[i + 1], cs[i]))
  }

  /** Bounded waiting: p is chosen after at most Potential rounds that choose
      others. */
  lemma {:induction false} BoundedWaiting(ts: seq<seq<Proc>>, cs: seq<nat>, p: nat) returns (i: nat)
    requires Waiting(ts, cs, p) && |cs| > Potential(ts[0], p, |ts[0]|)
    ensures i < |cs| && cs[i] == p && i <= Potential(ts[0], p, |ts[0]|)
    decreases |cs|
  {
    if cs[0] == p {
      i := 0;
    } else {
      assert Round(ts[0], ts[1], cs[0]);
      PotentialFalls(ts[0], ts[1], cs[0], p, |ts[0]|);
      assert forall j: nat :: j < |cs| - 1 ==> Round(ts[1..][j], ts[1..][j + 1], cs[1..][j]) by {
        forall j: nat | j < |cs| - 1 ensures Round(ts[1..][j], ts[1..][j + 1], cs[1..][j]) {
          assert Round(ts[j + 1], ts[j + 2], cs[j + 1]);
        }
      }
      i := BoundedWaiting(ts[1..], cs[1..], p);
      i := i + 1;
    }
  }
}
