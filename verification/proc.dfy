/** The process lifecycle (proc.c of xv6-public_3): each method is one region that
    holds ptable.lock, or a write to a process nobody else may touch. */
module Proc {
  import opened Params

  datatype State = UNUSED | EMBRYO | SLEEPING | RUNNABLE | RUNNING | ZOMBIE

  /** A sleep channel; wait sleeps on the process's own table entry. */
  datatype Chan = NoChan | Entry(i: int) | Other(addr: int)

  /** parent is a table index, -1 for the null pointer. */
  datatype Proc = Proc(state: State, pid: nat, parent: int, chan: Chan, killed: bool)

  predicate Live(p: Proc) {
    p.state == SLEEPING || p.state == RUNNABLE || p.state == RUNNING
  }

  predicate InWait(t: seq<Proc>, i: int) {
    0 <= i < |t| && t[i].state == SLEEPING && t[i].chan == Entry(i)
  }

  /** No lost exit: no process sleeping in wait has a zombie child. */
  ghost predicate NoLostExit(t: seq<Proc>) {
    forall i: nat, j: nat :: NotLost(t, i, j)
  }

  predicate NotLost(t: seq<Proc>, i: nat, j: nat) {
    InWait(t, i) && j < |t| && t[j].state == ZOMBIE ==> t[j].parent != i
  }

  /** Every non-null parent is live; unused entries have none, everyone who has run
      but init has one. */
  ghost predicate Parents(t: seq<Proc>, init: nat) {
    init < |t| && Live(t[init]) && t[init].parent == -1 && forall i: nat :: ParentOk(t, init, i)
  }

  predicate ParentOk(t: seq<Proc>, init: nat, i: nat) {
    i < |t| ==>
      && (t[i].parent != -1 ==> 0 <= t[i].parent < |t| && t[i].parent != i && Live(t[t[i].parent]))
      && (t[i].state == UNUSED ==> t[i].parent == -1)
      && (i != init && (Live(t[i]) || t[i].state == ZOMBIE) ==> t[i].parent != -1)
  }

  /** No two entries have the same nonzero pid, whether in use or left behind by a
      failed fork, and none of these pids has been returned by a wait. */
  ghost predicate Pids(t: seq<Proc>, nextpid: nat, reaped: seq<nat>) {
    && (forall i: nat :: PidOk(t, nextpid, reaped, i))
    && (forall i: nat, j: nat :: PidsDiffer(t, i, j))
    && (forall x :: x in reaped ==> x < nextpid)
    && (forall i, j :: 0 <= i < j < |reaped| ==> reaped[i] != reaped[j])
  }

  predicate PidOk(t: seq<Proc>, nextpid: nat, reaped: seq<nat>, i: nat) {
    i < |t| ==>
      t[i].pid < nextpid && (t[i].state != UNUSED ==> t[i].pid != 0) && (t[i].pid != 0 ==> t[i].pid !in reaped)
  }

  predicate PidsDiffer(t: seq<Proc>, i: nat, j: nat) {
    i < j < |t| && t[i].pid != 0 ==> t[i].pid != t[j].pid
  }

  ghost predicate Inv(t: seq<Proc>, init: nat, nextpid: nat, reaped: seq<nat>)
    ensures Inv(t, init, nextpid, reaped) ==> |t| == NPROC && init < NPROC
  {
    |t| == NPROC && Parents(t, init) && Pids(t, nextpid, reaped) && NoLostExit(t)
  }

  lemma EntryFacts(t: seq<Proc>, init: nat, nextpid: nat, reaped: seq<nat>, k: nat)
    requires Inv(t, init, nextpid, reaped) && k < |t|
    ensures t[k].pid < nextpid && (t[k].state != UNUSED ==> t[k].pid != 0 && t[k].pid !in reaped)
    ensures if k == init then Live(t[k]) && t[k].parent == -1
            else (t[k].parent != -1 ==> 0 <= t[k].parent < |t| && t[k].parent != k && Live(t[t[k].parent]))
                 && (t[k].state == UNUSED ==> t[k].parent == -1) &&
                    (Live(t[k]) || t[k].state == ZOMBIE ==> t[k].parent != -1)
  {
    assert ParentOk(t, init, k) && PidOk(t, nextpid, reaped, k);
  }

  /** What entry k may become in one step other than exit. */
  ghost predicate MayBecome(t: seq<Proc>, init: nat, nextpid: nat, nextpid': nat, reaped: seq<nat>, reaped': seq<nat>,
      k: nat, q: Proc) {
    && k < |t| == NPROC && nextpid <= nextpid'
    && (Live(t[k]) ==> Live(q))
    && (if k == init then q.parent == -1
        else (q.parent != -1 ==> 0 <= q.parent < |t| && q.parent != k && Live(t[q.parent]))
             && (q.state == UNUSED ==> q.parent == -1) && (Live(q) ==> q.parent != -1))
    && (q.state == ZOMBIE ==> t[k].state == ZOMBIE && q.parent == t[k].parent)
    && (q.pid == 0 || q.pid == t[k].pid || nextpid <= q.pid < nextpid') && (q.state != UNUSED ==> q.pid != 0)
    && (reaped' == reaped || (q.pid == 0 && t[k].state != UNUSED && reaped' == reaped + [t[k].pid]))
    && (q.state == SLEEPING && q.chan == Entry(k) && !InWait(t, k) ==>
          forall j: nat :: j < |t| && t[j].parent == k ==> t[j].state != ZOMBIE)
  }

  lemma OneEntry(t: seq<Proc>, init: nat, nextpid: nat, nextpid': nat, reaped: seq<nat>, reaped': seq<nat>, k: nat,
      q: Proc)
    requires Inv(t, init, nextpid, reaped) && MayBecome(t, init, nextpid, nextpid', reaped, reaped', k, q)
    ensures Inv(t[k := q], init, nextpid', reaped')
  {
    var t' := t[k := q];
    assert ParentOk(t, init, k) && PidOk(t, nextpid, reaped, k);
    forall i: nat ensures ParentOk(t', init, i) { assert ParentOk(t, init, i); }
    forall i: nat ensures PidOk(t', nextpid', reaped', i) {
      assert PidOk(t, nextpid, reaped, i);
      assert PidsDiffer(t, i, k) && PidsDiffer(t, k, i);
    }
    forall i: nat, j: nat ensures PidsDiffer(t', i, j) {
      assert PidsDiffer(t, i, j) && PidOk(t, nextpid, reaped, i) && PidOk(t, nextpid, reaped, j);
    }
    forall i: nat, j: nat ensures NotLost(t', i, j) { assert NotLost(t, i, j); }
  }

  /** Waking processes up. */
  lemma WokenKeeps(t: seq<Proc>, t': seq<Proc>, init: nat, nextpid: nat, reaped: seq<nat>, chan: Chan)
    requires Inv(t, init, nextpid, reaped) && |t'| == |t| && forall i: nat :: i < |t| ==> t'[i] == Woken(t[i], chan)
    ensures Inv(t', init, nextpid, reaped)
  {
    forall i: nat ensures ParentOk(t', init, i) { assert ParentOk(t, init, i); }
    forall i: nat ensures PidOk(t', nextpid, reaped, i) { assert PidOk(t, nextpid, reaped, i); }
    forall i: nat, j: nat ensures PidsDiffer(t', i, j) { assert PidsDiffer(t, i, j); }
    forall i: nat, j: nat ensures NotLost(t', i, j) { assert NotLost(t, i, j); }
  }

  function Woken(p: Proc, chan: Chan): Proc {
    if p.state == SLEEPING && p.chan == chan then p.(state := RUNNABLE) else p
  }

  /** exit leaves an orphan to init, and wakes init if the orphan is a zombie. */
  predicate HasZombie(t: seq<Proc>, cur: int, n: nat)
    requires n <= |t|
  {
    exists j :: 0 <= j < n && t[j].parent == cur && t[j].state == ZOMBIE
  }

  datatype WaitResult = Reaped(pid: nat) | NoChild | Asleep

  class Ptable {
    const proc: array<Proc>
    const init: nat
    var nextpid: nat
    ghost var reaped: seq<nat>     // the pids wait has returned, in order

    ghost predicate Valid()
      reads this, proc
    {
      proc.Length == NPROC && Inv(proc[..], init, nextpid, reaped)
    }

    /** userinit: the first process, in the first entry. */
    constructor ()
      ensures Valid() && init == 0 && reaped == [] && fresh(proc) && nextpid == 2
      ensures forall i :: 0 <= i < NPROC ==>
                proc[i] == if i == 0 then Proc(RUNNABLE, 1, -1, NoChan, false) else Proc(UNUSED, 0, -1, NoChan, false)
    {
      proc := new Proc[NPROC](i =>
        if i == 0 then Proc(RUNNABLE, 1, -1, NoChan, false) else Proc(UNUSED, 0, -1, NoChan, false));
      init, nextpid, reaped := 0, 2, [];
    }

    /** One table entry written, as an allowed step. */
    method SetEntry(k: nat, q: Proc, ghost nextpid': nat, ghost reaped': seq<nat>)
      requires Valid() && MayBecome(proc[..], init, nextpid, nextpid', reaped, reaped', k, q)
      modifies proc
      ensures proc[..] == old(proc[..])[k := q] && Inv(proc[..], init, nextpid', reaped')
    {
      OneEntry(proc[..], init, nextpid, nextpid', reaped, reaped', k, q);
      ghost var t := proc[..];
      proc[k] := q;
      assert proc[..] == t[k := q];
    }

    /** wakeup1 */
    method Wakeup1(chan: Chan)
      modifies proc
      ensures forall i :: 0 <= i < proc.Length ==> proc[i] == Woken(old(proc[i]), chan)
    {
      var p := 0;
      while p < proc.Length
        invariant 0 <= p <= proc.Length
        invariant forall i :: 0 <= i < proc.Length ==>
                  proc[i] == if i < p then Woken(old(proc[i]), chan) else old(proc[i])
      {
        if proc[p].state == SLEEPING && proc[p].chan == chan {
          proc[p] := proc[p].(state := RUNNABLE);
        }
        p := p + 1;
      }
    }

    /** wakeup: exactly the processes asleep on the channel become runnable. */
    method Wakeup(chan: Chan)
      requires Valid()
      modifies proc
      ensures Valid() && forall i :: 0 <= i < NPROC ==> var p := old(proc[i]);
                proc[i] == if p.state == SLEEPING && p.chan == chan then p.(state := RUNNABLE) else p
    {
      ghost var t := proc[..];
      Wakeup1(chan);
      WokenKeeps(t, proc[..], init, nextpid, reaped, chan);
    }

    /** allocproc's locked region: the first unused entry gets a new pid. */
    method Allocproc() returns (p: int)
      requires Valid()
      modifies this`nextpid, proc
      ensures Valid()
      ensures p == -1 ==> (forall i :: 0 <= i < NPROC ==> proc[i].state != UNUSED) && proc[..] == old(proc[..])
      ensures p != -1 ==> 0 <= p < NPROC && old(proc[..])[p].state == UNUSED && nextpid == old(nextpid) + 1
      ensures p != -1 ==> forall i :: 0 <= i < p ==> old(proc[..])[i].state != UNUSED
      ensures p != -1 ==> proc[..] == old(proc[..])[p := old(proc[..])[p].(state := EMBRYO, pid := old(nextpid))]
    {
      p := 0;
      while p < NPROC
        invariant 0 <= p <= NPROC && forall i :: 0 <= i < p ==> proc[i].state != UNUSED
      {
        if proc[p].state == UNUSED {
          EntryFacts(proc[..], init, nextpid, reaped, p);
          SetEntry(p, proc[p].(state := EMBRYO, pid := nextpid), nextpid + 1, reaped);
          nextpid := nextpid + 1;
          return;
        }
        p := p + 1;
      }
      p := -1;
    }

    /** fork, when the kernel stack or the copy of the address space fails. */
    method ForkFail(np: nat)
      requires Valid() && np < NPROC && proc[np].state == EMBRYO && proc[np].parent == -1
      modifies proc
      ensures Valid() && proc[..] == old(proc[..])[np := old(proc[..])[np].(state := UNUSED)]
      ensures old(Unmarked(proc[..])) ==> (Unmarked(proc[..]) <==> !old(proc[..])[np].killed)
    {
      EntryFacts(proc[..], init, nextpid, reaped, np);
      SetEntry(np, proc[np].(state := UNUSED), nextpid, reaped);
      assert proc[..][np].state == UNUSED;
    }

    /** fork: np->parent = curproc. */
    method ForkParent(np: nat, cur: nat)
      requires Valid() && np < NPROC && cur < NPROC && proc[np].state == EMBRYO && proc[cur].state == RUNNING
      modifies proc
      ensures Valid() && proc[..] == old(proc[..])[np := old(proc[..])[np].(parent := cur)]
    {
      EntryFacts(proc[..], init, nextpid, reaped, np);
      SetEntry(np, proc[np].(parent := cur), nextpid, reaped);
    }

    /** fork: the child may run; its pid is what fork returns. */
    method ForkRun(np: nat) returns (pid: nat)
      requires Valid() && np < NPROC && proc[np].state == EMBRYO && proc[np].parent != -1
      modifies proc
      ensures Valid() && pid == proc[np].pid && proc[..] == old(proc[..])[np := old(proc[..])[np].(state := RUNNABLE)]
    {
      pid := proc[np].pid;
      EntryFacts(proc[..], init, nextpid, reaped, np);
      SetEntry(np, proc[np].(state := RUNNABLE), nextpid, reaped);
    }

    /** The scheduler picks a runnable process. */
    method Dispatch(p: nat)
      requires Valid() && p < NPROC && proc[p].state == RUNNABLE
      modifies proc
      ensures Valid() && proc[..] == old(proc[..])[p := old(proc[..])[p].(state := RUNNING)]
    {
      EntryFacts(proc[..], init, nextpid, reaped, p);
      SetEntry(p, proc[p].(state := RUNNING), nextpid, reaped);
    }

    method Yield(cur: nat)
      requires Valid() && cur < NPROC && proc[cur].state == RUNNING
      modifies proc
      ensures Valid() && proc[..] == old(proc[..])[cur := old(proc[..])[cur].(state := RUNNABLE)]
    {
      EntryFacts(proc[..], init, nextpid, reaped, cur);
      SetEntry(cur, proc[cur].(state := RUNNABLE), nextpid, reaped);
    }

    /** sleep on something other than a table entry. */
    method Sleep(cur: nat, chan: Chan)
      requires Valid() && cur < NPROC && proc[cur].state == RUNNING && chan.Other?
      modifies proc
      ensures Valid() && proc[..] == old(proc[..])[cur := old(proc[..])[cur].(chan := chan, state := SLEEPING)]
    {
      EntryFacts(proc[..], init, nextpid, reaped, cur);
      SetEntry(cur, proc[cur].(chan := chan, state := SLEEPING), nextpid, reaped);
    }

    /** The end of sleep, once the process runs again: p->chan = 0. */
    method Awake(cur: nat)
      requires Valid() && cur < NPROC && proc[cur].state == RUNNING
      modifies proc
      ensures Valid() && proc[..] == old(proc[..])[cur := old(proc[..])[cur].(chan := NoChan)]
    {
      EntryFacts(proc[..], init, nextpid, reaped, cur);
      SetEntry(cur, proc[cur].(chan := NoChan), nextpid, reaped);
    }

    /** kill: the first entry with the pid is marked, and woken if it sleeps. */
    method Kill(pid: nat) returns (r: int)
      requires Valid()
      modifies proc
      ensures Valid() && (r == 0 || r == -1)
      ensures r == -1 ==> proc[..] == old(proc[..]) && forall i :: 0 <= i < NPROC ==> proc[i].pid != pid
      ensures r == 0 ==>
                var t := old(proc[..]);
                exists p :: && 0 <= p < NPROC && t[p].pid == pid && (forall i :: 0 <= i < p ==> t[i].pid != pid)
                            && proc[..] == t[p := t[p].(killed := true, state :=
                                                        if t[p].state == SLEEPING then RUNNABLE else t[p].state)]
      ensures old(Unmarked(proc[..])) ==> (Unmarked(proc[..]) <==> r == -1 || old(InUse(proc[..], pid)))
    {
      ghost var t := proc[..];
      var p := 0;
      while p < NPROC
        invariant 0 <= p <= NPROC && proc[..] == t && forall i :: 0 <= i < p ==> t[i].pid != pid
      {
        if proc[p].pid == pid {
          EntryFacts(proc[..], init, nextpid, reaped, p);
          SetEntry(p, proc[p].(killed := true, state := if proc[p].state == SLEEPING then RUNNABLE else proc[p].state),
              nextpid, reaped);
          assert FirstWith(t, pid, p);
          KillHitsIff(t, init, nextpid, reaped, pid, p);
          assert t[p].state == UNUSED ==> proc[..][p].state == UNUSED && proc[..][p].killed;
          return 0;
        }
        p := p + 1;
      }
      r := -1;
    }

    /** One turn of exit's loop over the table. */
    method PassOn(cur: nat, p: nat, ghost t: seq<Proc>)
      requires proc.Length == NPROC && p < NPROC && init < NPROC && Passing(t, proc[..], cur, init, p)
      modifies proc
      ensures Passing(t, proc[..], cur, init, p + 1)
    {
      if proc[p].parent == cur {
        proc[p] := proc[p].(parent := init);
        if proc[p].state == ZOMBIE {
          Wakeup1(Entry(init));
        }
      }
    }

    /** exit's locked region: the parent is woken, the children go to init, and init
        is woken if one of them is a zombie. */
    method Exit(cur: nat)
      requires Valid() && cur < NPROC && proc[cur].state == RUNNING && cur != init
      modifies proc
      ensures Valid() && Exited(old(proc[..]), proc[..], cur, init)
      ensures var t, t' := old(proc[..]), proc[..]; forall i :: 0 <= i < NPROC ==>
                && t'[i].pid == t[i].pid && t'[i].chan == t[i].chan && t'[i].killed == t[i].killed
                && t'[i].parent == (if t[i].parent == cur then init else t[i].parent)
                && t'[i].state == if i == cur then ZOMBIE
                     else if t[i].state == SLEEPING && (t[i].chan == Entry(t[cur].parent) ||
                             (t[i].chan == Entry(init) &&
                                 exists j :: 0 <= j < NPROC && t[j].parent == cur && t[j].state == ZOMBIE))
                     then RUNNABLE else t[i].state
      ensures old(Unmarked(proc[..])) ==> Unmarked(proc[..])
    {
      hide Unmarked, Exited, Inv, Passing;
      ghost var t := proc[..];
      Wakeup1(Entry(proc[cur].parent));
      ghost var t1 := proc[..];
      var p := 0;
      NothingPassed(t1, cur, init);
      while p < NPROC
        invariant 0 <= p <= NPROC && Passing(t1, proc[..], cur, init, p)
      {
        PassOn(cur, p, t1);
        p := p + 1;
      }
      ghost var t2 := proc[..];
      proc[cur] := proc[cur].(state := ZOMBIE);
      assert proc[..] == t2[cur := t2[cur].(state := ZOMBIE)];
      ExitKeeps(t, t1, t2, cur, init, nextpid, reaped);
      ExitedKeeps(t, proc[..], cur, init, nextpid, reaped);
      ExitedFields(t, proc[..], cur, init);
    }

    /** One pass of wait's loop: a zombie child is reaped, or there is nothing to wait
        for, or the caller sleeps on its own entry. */
    method Wait(cur: nat) returns (r: WaitResult)
      requires Valid() && cur < NPROC && proc[cur].state == RUNNING
      modifies this`reaped, proc
      ensures Valid()
      ensures r.Reaped? ==> r.pid !in old(reaped) && reaped == old(reaped) + [r.pid]
      ensures r.Reaped? ==>
                var t := old(proc[..]);
                exists j :: && 0 <= j < NPROC && t[j].parent == cur && t[j].state == ZOMBIE && t[j].pid == r.pid
                            && proc[..] == t[j := Proc(UNUSED, 0, -1, t[j].chan, false)]
      ensures old(Unmarked(proc[..])) ==> Unmarked(proc[..])
      ensures !r.Reaped? ==> reaped == old(reaped) && forall j :: 0 <= j < NPROC && old(proc[..])[j].parent == cur ==>
                old(proc[..])[j].state != ZOMBIE
      ensures r == NoChild ==>
              proc[..] == old(proc[..]) && (proc[cur].killed || forall j :: 0 <= j < NPROC ==> proc[j].parent != cur)
      ensures r == Asleep ==>
              !old(proc[..])[cur].killed && (exists j :: 0 <= j < NPROC && old(proc[..])[j].parent == cur)
      ensures r == Asleep ==>
              proc[..] == old(proc[..])[cur := old(proc[..])[cur].(chan := Entry(cur), state := SLEEPING)]
    {
      ghost var t := proc[..];
      var havekids := false;
      var p := 0;
      while p < NPROC
        invariant 0 <= p <= NPROC && proc[..] == t && reaped == old(reaped)
        invariant havekids <==> exists j :: 0 <= j < p && t[j].parent == cur
        invariant forall j :: 0 <= j < p && t[j].parent == cur ==> t[j].state != ZOMBIE
      {
        if proc[p].parent == cur {
          havekids := true;
          if proc[p].state == ZOMBIE {
            var pid := proc[p].pid;
            EntryFacts(proc[..], init, nextpid, reaped, p);
            SetEntry(p, Proc(UNUSED, 0, -1, proc[p].chan, false), nextpid, reaped + [pid]);
            reaped := reaped + [pid];
            return Reaped(pid);
          }
        }
        p := p + 1;
      }
      if !havekids || proc[cur].killed {
        return NoChild;
      }
      EntryFacts(proc[..], init, nextpid, reaped, cur);
      SetEntry(cur, proc[cur].(chan := Entry(cur), state := SLEEPING), nextpid, reaped);
      r := Asleep;
    }
  }

  /** kill's search stops here. */
  predicate FirstWith(t: seq<Proc>, pid: nat, p: nat) {
    p < |t| && t[p].pid == pid && forall i :: 0 <= i < p ==> t[i].pid != pid
  }

  predicate InUse(t: seq<Proc>, pid: nat) {
    exists i :: 0 <= i < |t| && t[i].state != UNUSED && t[i].pid == pid
  }

  /** No unused entry carries a kill for the process that will get it. */
  predicate Unmarked(t: seq<Proc>) {
    forall i :: 0 <= i < |t| && t[i].state == UNUSED ==> !t[i].killed
  }

  /** kill finds a process exactly when one in use has the pid; otherwise, if it finds
      anything, that is an unused entry: one with pid 0, or one whose fork failed. */
  lemma KillHitsIff(t: seq<Proc>, init: nat, nextpid: nat, reaped: seq<nat>, pid: nat, p: nat)
    requires Inv(t, init, nextpid, reaped) && FirstWith(t, pid, p)
    ensures t[p].state != UNUSED <==> InUse(t, pid)
    ensures pid != 0 ==> forall i :: 0 <= i < |t| && t[i].pid == pid ==> i == p
  {
    forall i: nat | i < |t| && t[i].pid == pid && pid != 0 ensures i == p {
      assert PidsDiffer(t, i, p) && PidsDiffer(t, p, i);
    }
    forall i: nat | i < |t| && t[i].state != UNUSED ensures t[i].pid != 0 {
      assert PidOk(t, nextpid, reaped, i);
    }
  }

  /** kill(0) on a fresh system marks the first unused entry, and the next process to
      be made is born killed. */
  method BornKilled() returns (pt: Ptable, child: int)
    ensures fresh(pt) && pt.Valid() && 0 <= child < NPROC
    ensures pt.proc[child].state == EMBRYO && pt.proc[child].pid == 2 && pt.proc[child].killed
  {
    pt := new Ptable();
    assert pt.proc[..][1].pid == 0;
    ghost var t := pt.proc[..];
    var r := pt.Kill(0);
    child := pt.Allocproc();
  }

  /** exit's loop after n entries. */
  ghost predicate Passing(t: seq<Proc>, t': seq<Proc>, cur: nat, init: nat, n: nat) {
    && |t| == |t'| && n <= |t|
    && forall i :: 0 <= i < |t| ==> t'[i] == PassedOn(t, cur, init, n, i)
  }

  lemma NothingPassed(t: seq<Proc>, cur: nat, init: nat)
    ensures Passing(t, t, cur, init, 0)
  {
  }

  ghost function PassedOn(t: seq<Proc>, cur: nat, init: nat, n: nat, i: int): Proc
    requires n <= |t| && 0 <= i < |t|
  {
    var p := if i < n && t[i].parent == cur then t[i].(parent := init) else t[i];
    if HasZombie(t, cur, n) then Woken(p, Entry(init)) else p
  }

  /** The whole effect of exit. */
  ghost predicate Exited(t: seq<Proc>, t': seq<Proc>, cur: nat, init: nat) {
    && |t| == |t'| && cur < |t|
    && forall i :: 0 <= i < |t| ==> t'[i] == ExitedEntry(t, cur, init, i)
  }

  ghost function ExitedEntry(t: seq<Proc>, cur: nat, init: nat, i: int): Proc
    requires cur < |t| && 0 <= i < |t|
  {
    var woken := t[i].state == SLEEPING &&
        (t[i].chan == Entry(t[cur].parent) || (t[i].chan == Entry(init) && HasZombie(t, cur, |t|)));
    Proc(if i == cur then ZOMBIE else if woken then RUNNABLE else t[i].state, t[i].pid,
         if t[i].parent == cur then init else t[i].parent, t[i].chan, t[i].killed)
  }

  /** The same, field by field. */
  lemma ExitedFields(t: seq<Proc>, t': seq<Proc>, cur: nat, init: nat)
    requires Exited(t, t', cur, init)
    ensures forall i :: 0 <= i < |t| ==>
              && t'[i].pid == t[i].pid && t'[i].chan == t[i].chan && t'[i].killed == t[i].killed
              && t'[i].parent == (if t[i].parent == cur then init else t[i].parent)
              && t'[i].state == if i == cur then ZOMBIE
                   else if t[i].state == SLEEPING && (t[i].chan == Entry(t[cur].parent) ||
                           (t[i].chan == Entry(init) &&
                               exists j :: 0 <= j < |t| && t[j].parent == cur && t[j].state == ZOMBIE))
                   then RUNNABLE else t[i].state
  {
  }

  lemma ExitKeeps(t: seq<Proc>, t1: seq<Proc>, t2: seq<Proc>, cur: nat, init: nat, nextpid: nat, reaped: seq<nat>)
    requires Inv(t, init, nextpid, reaped) && |t| == |t1| == |t2| && cur < |t| && cur != init && t[cur].state == RUNNING
    requires forall i: nat :: i < |t| ==> t1[i] == Woken(t[i], Entry(t[cur].parent))
    requires Passing(t1, t2, cur, init, |t|)
    ensures Exited(t, t2[cur := t2[cur].(state := ZOMBIE)], cur, init)
  {
    assert HasZombie(t1, cur, |t|) <==> HasZombie(t, cur, |t|) by {
      assert forall j: nat :: j < |t| ==>
             t1[j].parent == t[j].parent && (t1[j].state == ZOMBIE <==> t[j].state == ZOMBIE);
    }
    assert t[cur].parent != cur by { EntryFacts(t, init, nextpid, reaped, cur); }
  }

  /** exit keeps the invariant: the parent it could have missed is awake, and so is
      init if it inherits a zombie. */
  lemma ExitedKeeps(t: seq<Proc>, t2: seq<Proc>, cur: nat, init: nat, nextpid: nat, reaped: seq<nat>)
    requires Inv(t, init, nextpid, reaped) && Exited(t, t2, cur, init) && cur != init && t[cur].state == RUNNING
    ensures Inv(t2, init, nextpid, reaped) && (Unmarked(t) ==> Unmarked(t2))
  {
    assert ParentOk(t, init, cur) && ParentOk(t, init, init);
    forall i: nat ensures ParentOk(t2, init, i) {
      assert ParentOk(t, init, i);
      if i < |t| { assert t2[i] == ExitedEntry(t, cur, init, i); }
    }
    forall i: nat ensures PidOk(t2, nextpid, reaped, i) { assert PidOk(t, nextpid, reaped, i); }
    forall i: nat, j: nat ensures PidsDiffer(t2, i, j) { assert PidsDiffer(t, i, j); }
    forall i: nat, j: nat ensures NotLost(t2, i, j) {
      assert NotLost(t, i, j);
      assert InWait(t2, i) ==> InWait(t, i) && i != cur;
    }
  }
}
