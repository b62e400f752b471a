/** The process table and round-robin scheduler (src/process/process.c, src/scheduler/scheduler.c, and
    sys_exit of src/syscall/syscall.c).  Kernel operations are atomic on one processor; a process inside
    the loop of process_waitpid is recorded in `waitsFor` and polls when it runs. */
module Scheduler {
  import opened Seqs
  import opened RunRing

  datatype PState = Unused | Ready | Running | Blocked | Zombie

  predicate Runnable(s: PState)
  {
    s == Ready || s == Running
  }

  /** The status as sys_exit stores it: the low 32 bits, signed. */
  function AsI32(status: nat): (r: int)
    ensures -0x8000_0000 <= r < 0x8000_0000 && (status - r) % 0x1_0000_0000 == 0
  {
    var low := status % 0x1_0000_0000;
    if low < 0x8000_0000 then low else low - 0x1_0000_0000
  }

  /** The place of the process scheduler_yield picks: the first runnable one after the head. */
  ghost predicate FirstRunnable(state: seq<PState>, ring: seq<nat>, k: nat)
  {
    && |state| == PROC_MAX && (forall i | 0 <= i < |ring| :: ring[i] < PROC_MAX)
    && 1 <= k < |ring| && Runnable(state[ring[k]])
    && forall j | 1 <= j < k :: !Runnable(state[ring[j]])
  }

  ghost predicate NoneRunnable(state: seq<PState>, ring: seq<nat>)
  {
    && |state| == PROC_MAX && (forall i | 0 <= i < |ring| :: ring[i] < PROC_MAX)
    && forall j | 1 <= j < |ring| :: !Runnable(state[ring[j]])
  }

  ghost predicate Full(state: seq<PState>)
  {
    forall p | 0 <= p < |state| :: state[p] != Unused
  }

  /** The states after switching from one process to another. */
  function Dispatched(state: seq<PState>, from: nat, to: nat): (s: seq<PState>)
    requires from < |state| && to < |state|
    ensures |s| == |state|
  {
    (if state[from] == Running then state[from := Ready] else state)[to := Running]
  }

  /** Slots in use keep their parent and exit status. */
  ghost predicate KeepsUsed(state: seq<PState>, ppid: seq<nat>, exitStatus: seq<int>, ppid': seq<nat>, exitStatus': seq<int>)
  {
    && |state| == |ppid| == |exitStatus| == |ppid'| == |exitStatus'|
    && forall q | 0 <= q < |state| && state[q] != Unused :: ppid'[q] == ppid[q] && exitStatus'[q] == exitStatus[q]
  }

  /** The queue as a whole, which may be empty. */
  ghost predicate Linked(next: seq<int>, ring: seq<nat>, head: int)
  {
    if ring == [] then |next| == PROC_MAX && head == -1 else IsRing(next, ring) && head == ring[0]
  }

  // ----- What every operation keeps

  /** The queue holds idle and no unused slot, and only the current process is running. */
  ghost predicate QueueOk(state: seq<PState>, ring: seq<nat>, current: nat)
    requires |state| == PROC_MAX
  {
    && 0 in ring && Runnable(state[0])
    && (forall p | p in ring :: p < PROC_MAX && state[p] != Unused)
    && (forall p | 0 <= p < PROC_MAX && state[p] == Running :: p == current)
  }

  /** A zombie is in the queue and still shows the status it gave to exit, which no process gives twice. */
  ghost predicate ExitsOk(state: seq<PState>, exitStatus: seq<int>, ring: seq<nat>, occupant: seq<nat>,
                          exits: map<(nat, nat), int>)
    requires |state| == |exitStatus| == |occupant| == PROC_MAX
  {
    && (forall p | 0 <= p < PROC_MAX && state[p] == Zombie ::
          p in ring && (p, occupant[p]) in exits && exitStatus[p] == exits[(p, occupant[p])])
    && (forall p | 0 <= p < PROC_MAX && state[p] != Zombie && state[p] != Unused :: (p, occupant[p]) !in exits)
    && (forall e | e in exits :: e.0 < PROC_MAX && e.1 <= occupant[e.0])
  }

  /** Every process inside process_waitpid is in the queue, and the child it asked for still has its slot. */
  ghost predicate WaitsOk(state: seq<PState>, ppid: seq<nat>, ring: seq<nat>, waitsFor: map<nat, nat>,
                          occupant: seq<nat>, awaited: map<nat, nat>)
    requires |state| == |ppid| == |occupant| == PROC_MAX
  {
    forall p | p in waitsFor ::
      && p in ring && p < PROC_MAX && Runnable(state[p])
      && waitsFor[p] < PROC_MAX && state[waitsFor[p]] != Unused && ppid[waitsFor[p]] == p
      && p in awaited && occupant[waitsFor[p]] == awaited[p]
  }

  class Kernel {
    // The process table, field by field.
    var state: seq<PState>
    var ppid: seq<nat>
    var exitStatus: seq<int>
    var next: seq<int>
    var runQueue: int
    var current: nat
    /** Processes inside the loop of process_waitpid, and the slot each waits for. */
    var waitsFor: map<nat, nat>

    /** The queue, from its head on. */
    ghost var ring: seq<nat>
    /** How many processes have used each slot: (slot, occupant) names one process for ever. */
    ghost var occupant: seq<nat>
    /** The status each process that exited gave to exit. */
    ghost var exits: map<(nat, nat), int>
    /** The occupant each waiting process asked for. */
    ghost var awaited: map<nat, nat>

    ghost predicate Queue()
      reads this
    {
      && |state| == |ppid| == |exitStatus| == |occupant| == |next| == PROC_MAX && runQueue == current < PROC_MAX
      && IsRing(next, ring) && ring[0] == current && QueueOk(state, ring, current)
      && ExitsOk(state, exitStatus, ring, occupant, exits)
      && WaitsOk(state, ppid, ring, waitsFor, occupant, awaited)
    }

    /** The queue is one cycle headed by the running process and holding idle; no unused slot is in it;
        zombies keep the status they gave; waiting processes wait for children not yet reaped. */
    ghost predicate Valid()
      reads this
    {
      Queue() && state[current] == Running
    }

    /** process_init and scheduler_init: idle alone. */
    constructor ()
      ensures Valid() && ring == [0] && waitsFor == map[] && exits == map[]
      ensures forall p | 0 < p < PROC_MAX :: state[p] == Unused
    {
      state := seq(PROC_MAX, p => if p == 0 then Running else Unused);
      ppid, exitStatus := seq(PROC_MAX, _ => 0), seq(PROC_MAX, _ => 0);
      next := seq(PROC_MAX, _ => -1);
      runQueue, current, waitsFor := -1, 0, map[];
      ring, occupant, exits, awaited := [], seq(PROC_MAX, _ => 0), map[], map[];
      new;
      SchedulerAdd(0);
    }

    /** scheduler_add: alone in an empty queue, after the head otherwise. */
    method SchedulerAdd(p: nat)
      requires Linked(next, ring, runQueue) && p < PROC_MAX && p !in ring
      modifies `next, `ring, `runQueue
      ensures IsRing(next, ring) && runQueue == ring[0]
      ensures ring == if old(ring) == [] then [p] else Inserted(old(ring), p)
    {
      if runQueue == -1 {
        next := next[p := p];
        runQueue := p;
        ring := [p];
      } else {
        InsertKeepsRing(next, ring, p);
        next := next[p := next[runQueue]];
        next := next[runQueue := p];
        ring := Inserted(ring, p);
      }
    }

    /** scheduler_remove: look for the predecessor of p all round the queue. */
    method SchedulerRemove(p: nat)
      requires Linked(next, ring, runQueue) && p < PROC_MAX
      modifies `next, `ring, `runQueue
      ensures Linked(next, ring, runQueue) && p !in ring
      ensures p !in old(ring) ==> next == old(next) && ring == old(ring) && runQueue == old(runQueue)
      ensures p in old(ring) ==> next[p] == -1
      ensures p in old(ring) ==>
        exists k: nat :: k < |old(ring)| && old(ring)[k] == p && ring == Without(old(ring), k)
    {
      if runQueue == -1 { return; }
      ghost var n := |ring|;
      var prev := runQueue;
      ghost var i := 0;
      while next[prev] != p && next[prev] != runQueue
        invariant 0 <= i < n && prev == ring[i]
        invariant forall j | 1 <= j <= i :: ring[j] != p
        decreases n - i
      {
        prev := next[prev];
        i := i + 1;
      }
      if next[prev] != p { return; }
      ghost var k := Succ(i, n);
      RemoveAt(next, ring, i);
      if next[p] == p {
        runQueue := -1;
      } else {
        next := next[prev := next[p]];
        if runQueue == p { runQueue := next[p]; }
      }
      ring := Without(ring, k);
      next := next[p := -1];
    }

    /** The scan of scheduler_yield: the first runnable process after the head, or the head again. */
    method NextRunnable() returns (nxt: nat, ghost k: nat)
      requires |state| == PROC_MAX && IsRing(next, ring) && runQueue == ring[0]
      ensures nxt in ring && (nxt == runQueue <==> NoneRunnable(state, ring))
      ensures nxt != runQueue ==> Runnable(state[nxt])
      ensures k < |ring| && nxt == ring[k]
      ensures if k == 0 then NoneRunnable(state, ring) else FirstRunnable(state, ring, k)
    {
      nxt, k := next[runQueue], Succ(0, |ring|);
      while !Runnable(state[nxt]) && nxt != runQueue
        invariant 0 <= k < |ring| && nxt == ring[k]
        invariant forall j | 1 <= j < (if k == 0 then |ring| else k) :: !Runnable(state[ring[j]])
        decreases |ring| - (if k == 0 then |ring| else k)
      {
        nxt, k := next[nxt], Succ(k, |ring|);
      }
    }

    /** scheduler_yield.  The caller is running, or has just become a zombie. */
    method Yield() returns (switched: bool, ghost k: nat)
      requires Queue()
      requires state[current] == Running || (state[current] == Zombie && current != 0)
      modifies `state, `runQueue, `current, `ring
      ensures Valid()
      ensures switched ==>
        && FirstRunnable(old(state), old(ring), k)
        && ring == Rotated(old(ring), k) && current == old(ring)[k]
        && state == Dispatched(old(state), old(current), current)
      ensures !switched ==>
        && NoneRunnable(old(state), old(ring))
        && state == old(state) && ring == old(ring) && current == old(current)
      ensures old(state[current]) == Zombie ==> switched
    {
      hide QueueOk, ExitsOk, WaitsOk, IsRing, FirstRunnable, NoneRunnable;
      var nxt;
      nxt, k := NextRunnable();
      if nxt == current {
        HeadAgain(state, next, ring, k);
        return false, k;
      }
      SwitchKeeps(state, next, ring, k);
      SwitchKeepsExits(state, exitStatus, ring, k, occupant, exits);
      SwitchKeepsWaits(state, ppid, ring, k, waitsFor, occupant, awaited);
      runQueue := nxt;
      if state[current] == Running { state := state[current := Ready]; }
      state := state[nxt := Running];
      current := nxt;
      ring := Rotated(ring, k);
      return true, k;
    }

    /** alloc_pid: the least unused slot. */
    method AllocPid() returns (pid: int)
      requires |state| == PROC_MAX
      ensures pid == -1 <==> Full(state)
      ensures -1 <= pid < PROC_MAX
      ensures pid >= 0 ==> state[pid] == Unused && forall p | 0 <= p < pid :: state[p] != Unused
    {
      for i := 0 to PROC_MAX
        invariant forall p | 0 <= p < i :: state[p] != Unused
      {
        if state[i] == Unused { return i; }
      }
      return -1;
    }

    /** kthread_create.  It leaves the slot's ppid and exit_status as the last occupant left them, and the
        thread is not in the queue until scheduler_add. */
    method KthreadCreate(gotStack: bool) returns (pid: int)
      requires Valid()
      modifies `state, `next, `occupant
      ensures Valid() && pid < PROC_MAX
      ensures pid >= 0 <==> gotStack && !Full(old(state))
      ensures pid >= 0 ==>
        && pid !in ring && old(state)[pid] == Unused && state == old(state)[pid := Ready]
        && occupant == old(occupant)[pid := old(occupant)[pid] + 1] && next == old(next)[pid := -1]
      ensures pid < 0 ==> state == old(state) && occupant == old(occupant)
    {
      hide QueueOk, ExitsOk, WaitsOk, Full, IsRing;
      pid := AllocPid();
      if pid < 0 { return; }
      state := state[pid := Ready];
      next := next[pid := -1];
      Scribble(old(state), old(ppid), old(exitStatus), old(next), occupant, pid, ppid, exitStatus, ring, current,
               exits, waitsFor, awaited);
      if !gotStack {
        state := state[pid := Unused];
        return -1;
      }
      Claim(old(state), ppid, exitStatus, occupant, pid, ring, current, exits, waitsFor, awaited);
      occupant := occupant[pid := occupant[pid] + 1];
    }

    /** The way init_launch starts a program: kthread_create, then scheduler_add. */
    method Launch(gotStack: bool) returns (pid: int)
      requires Valid()
      modifies `state, `next, `occupant, `ring, `runQueue
      ensures Valid()
      ensures pid >= 0 <==> gotStack && !Full(old(state))
      ensures pid >= 0 ==>
        && pid < PROC_MAX && pid !in old(ring) && old(state)[pid] == Unused
        && state == old(state)[pid := Ready] && ring == Inserted(old(ring), pid)
        && occupant == old(occupant)[pid := old(occupant)[pid] + 1]
      ensures pid < 0 ==> state == old(state) && ring == old(ring) && occupant == old(occupant)
    {
      hide QueueOk, ExitsOk, WaitsOk, Full;
      pid := KthreadCreate(gotStack);
      if pid >= 0 {
        LinkKeeps(state, ppid, exitStatus, ring, pid, current, occupant, exits, waitsFor, awaited);
        SchedulerAdd(pid);
      }
    }

    /** process_fork up to its scheduler_add: the child's slot. */
    method ForkSlot(gotStack: bool, gotSpace: bool) returns (pid: int)
      requires Valid()
      modifies `state, `ppid, `exitStatus, `next, `occupant
      ensures Valid()
      ensures pid >= 0 <==> gotStack && gotSpace && !Full(old(state))
      ensures pid >= 0 ==>
        && pid < PROC_MAX && pid !in ring && old(state)[pid] == Unused && state == old(state)[pid := Ready]
        && ppid == old(ppid)[pid := current] && occupant == old(occupant)[pid := old(occupant)[pid] + 1]
        && exitStatus == old(exitStatus)[pid := 0]
      ensures pid < 0 ==> state == old(state) && occupant == old(occupant)
      ensures pid < 0 ==> KeepsUsed(state, old(ppid), old(exitStatus), ppid, exitStatus)
    {
      hide QueueOk, ExitsOk, WaitsOk, Full, IsRing;
      pid := AllocPid();
      if pid < 0 { return; }
      ppid := ppid[pid := current];
      exitStatus := exitStatus[pid := 0];
      state := state[pid := Ready];
      next := next[pid := -1];
      Scribble(old(state), old(ppid), old(exitStatus), old(next), occupant, pid, ppid, exitStatus, ring, current,
               exits, waitsFor, awaited);
      if !gotStack || !gotSpace {
        state := state[pid := Unused];
        return -1;
      }
      Claim(old(state), ppid, exitStatus, occupant, pid, ring, current, exits, waitsFor, awaited);
      occupant := occupant[pid := occupant[pid] + 1];
    }

    /** The process-table part of process_fork. */
    method Fork(gotStack: bool, gotSpace: bool) returns (pid: int)
      requires Valid() && current !in waitsFor
      modifies `state, `ppid, `exitStatus, `next, `occupant, `ring, `runQueue
      ensures Valid()
      ensures pid >= 0 <==> gotStack && gotSpace && !Full(old(state))
      ensures pid >= 0 ==>
        && pid < PROC_MAX && pid !in old(ring) && old(state)[pid] == Unused
        && state == old(state)[pid := Ready] && ring == Inserted(old(ring), pid)
        && ppid == old(ppid)[pid := current] && occupant == old(occupant)[pid := old(occupant)[pid] + 1]
        && exitStatus == old(exitStatus)[pid := 0]
      ensures pid < 0 ==> state == old(state) && ring == old(ring) && occupant == old(occupant)
      ensures pid < 0 ==> KeepsUsed(state, old(ppid), old(exitStatus), ppid, exitStatus)
    {
      hide QueueOk, ExitsOk, WaitsOk;
      pid := ForkSlot(gotStack, gotSpace);
      if pid >= 0 {
        LinkKeeps(state, ppid, exitStatus, ring, pid, current, occupant, exits, waitsFor, awaited);
        SchedulerAdd(pid);
      }
    }

    /** sys_exit: record the status, become a zombie, yield.  Control never comes back. */
    method Exit(status: nat) returns (ghost k: nat)
      requires Valid() && current != 0 && current !in waitsFor
      modifies `state, `exitStatus, `runQueue, `current, `ring, `exits
      ensures Valid() && current != old(current) && state[old(current)] == Zombie
      ensures (old(current), old(occupant[current])) !in old(exits)
      ensures exits == old(exits)[(old(current), old(occupant[current])) := AsI32(status)]
      ensures FirstRunnable(old(state), old(ring), k) && ring == Rotated(old(ring), k) && current == old(ring)[k]
      ensures state == old(state)[old(current) := Zombie][current := Running]
      ensures exitStatus == old(exitStatus)[old(current) := AsI32(status)]
    {
      hide ExitsOk, WaitsOk, Rotated;
      ExitKeeps(state, ppid, exitStatus, ring, current, AsI32(status), occupant, exits, waitsFor, awaited);
      exitStatus := exitStatus[current := AsI32(status)];
      state := state[current := Zombie];
      exits := exits[(current, occupant[current]) := AsI32(status)];
      var switched;
      switched, k := Yield();
    }

    /** The checks at the start of process_waitpid. */
    method WaitBegin(pid: nat) returns (ok: bool)
      requires Valid() && current !in waitsFor
      modifies `waitsFor, `awaited
      ensures Valid()
      ensures ok <==> pid < PROC_MAX && state[pid] != Unused && ppid[pid] == current
      ensures ok ==> waitsFor == old(waitsFor)[current := pid] && awaited == old(awaited)[current := occupant[pid]]
      ensures !ok ==> waitsFor == old(waitsFor) && awaited == old(awaited)
    {
      if pid >= PROC_MAX || state[pid] == Unused || ppid[pid] != current { return false; }
      waitsFor := waitsFor[current := pid];
      awaited := awaited[current := occupant[pid]];
      return true;
    }

    /** One turn of the loop of process_waitpid, and what follows it once the child is a zombie: the status
        handed over is the one that very child gave to exit. */
    method WaitPoll() returns (done: bool, status: int, ghost k: nat)
      requires Valid() && current in waitsFor
      modifies `state, `next, `runQueue, `current, `ring, `waitsFor
      ensures Valid()
      ensures var child := old(waitsFor[current]);
        done <==> old(state)[child] == Zombie
      ensures done ==> var child := old(waitsFor[current]);
        && (child, old(awaited[current])) in exits && status == exits[(child, old(awaited[current]))]
        && state == old(state)[child := Unused] && current == old(current)
        && k < |old(ring)| && old(ring)[k] == child && ring == Without(old(ring), k) && child !in ring
        && waitsFor == old(waitsFor) - {old(current)}
      ensures !done ==> waitsFor == old(waitsFor)
      ensures !done && NoneRunnable(old(state), old(ring)) ==>
        state == old(state) && ring == old(ring) && current == old(current)
      ensures !done && !NoneRunnable(old(state), old(ring)) ==>
        && FirstRunnable(old(state), old(ring), k)
        && ring == Rotated(old(ring), k) && current == old(ring)[k]
        && state == Dispatched(old(state), old(current), current)
    {
      hide QueueOk, ExitsOk, WaitsOk, Rotated, Dispatched, Without;
      AwaitedChild(state, ppid, exitStatus, ring, current, occupant, exits, waitsFor, awaited);
      var child := waitsFor[current];
      done, status := state[child] == Zombie, 0;
      if !done {
        var switched;
        switched, k := Yield();
        return;
      }
      k := IndexOf(ring, child);
      ReapKeeps(state, ppid, exitStatus, next, ring, k, current, occupant, exits, waitsFor, awaited);
      SchedulerRemove(child);
      status := exitStatus[child];
      state := state[child := Unused];
      waitsFor := waitsFor - {current};
    }
  }

  // ----- Switching

  lemma HeadAgain(state: seq<PState>, next: seq<int>, ring: seq<nat>, k: nat)
    requires |state| == PROC_MAX && IsRing(next, ring) && k < |ring| && QueueOk(state, ring, ring[0])
    requires if k == 0 then NoneRunnable(state, ring) else FirstRunnable(state, ring, k)
    ensures (k == 0 <==> ring[k] == ring[0])
    ensures k == 0 ==> state[ring[0]] == Running || ring[0] == 0
  {
  }

  lemma SwitchKeeps(state: seq<PState>, next: seq<int>, ring: seq<nat>, k: nat)
    requires |state| == PROC_MAX && IsRing(next, ring) && QueueOk(state, ring, ring[0])
    requires FirstRunnable(state, ring, k)
    ensures IsRing(next, Rotated(ring, k)) && Rotated(ring, k)[0] == ring[k]
    ensures QueueOk(Dispatched(state, ring[0], ring[k]), Rotated(ring, k), ring[k])
    ensures Dispatched(state, ring[0], ring[k])[ring[k]] == Running
  {
    hide IsRing, Rotated;
    RotateKeepsRing(next, ring, k);
  }

  lemma SwitchKeepsExits(state: seq<PState>, exitStatus: seq<int>, ring: seq<nat>, k: nat, occupant: seq<nat>,
                         exits: map<(nat, nat), int>)
    requires |state| == |exitStatus| == |occupant| == PROC_MAX && FirstRunnable(state, ring, k)
    requires ExitsOk(state, exitStatus, ring, occupant, exits)
    ensures ExitsOk(Dispatched(state, ring[0], ring[k]), exitStatus, Rotated(ring, k), occupant, exits)
  {
    RotateMembers(ring, k);
  }

  lemma SwitchKeepsWaits(state: seq<PState>, ppid: seq<nat>, ring: seq<nat>, k: nat, waitsFor: map<nat, nat>,
                         occupant: seq<nat>, awaited: map<nat, nat>)
    requires |state| == |ppid| == |occupant| == PROC_MAX && FirstRunnable(state, ring, k)
    requires WaitsOk(state, ppid, ring, waitsFor, occupant, awaited)
    ensures WaitsOk(Dispatched(state, ring[0], ring[k]), ppid, Rotated(ring, k), waitsFor, occupant, awaited)
  {
    RotateMembers(ring, k);
  }

  // ----- Taking a slot, leaving it, reaping it

  /** An unused slot may be written: nothing in the queue or in a wait refers to it. */
  lemma Scribble(state: seq<PState>, ppid: seq<nat>, exitStatus: seq<int>, next: seq<int>, occupant: seq<nat>,
                 p: nat, ppid': seq<nat>, exitStatus': seq<int>, ring: seq<nat>, current: nat,
                 exits: map<(nat, nat), int>, waitsFor: map<nat, nat>, awaited: map<nat, nat>)
    requires |state| == |ppid| == |exitStatus| == |occupant| == PROC_MAX && p < PROC_MAX && state[p] == Unused
    requires IsRing(next, ring) && QueueOk(state, ring, current)
    requires ExitsOk(state, exitStatus, ring, occupant, exits)
    requires WaitsOk(state, ppid, ring, waitsFor, occupant, awaited)
    requires |ppid'| == |exitStatus'| == PROC_MAX
    requires forall q | 0 <= q < PROC_MAX && q != p :: ppid'[q] == ppid[q] && exitStatus'[q] == exitStatus[q]
    ensures p !in ring && IsRing(next[p := -1], ring)
    ensures state[p := Ready][p := Unused] == state
    ensures ExitsOk(state, exitStatus', ring, occupant, exits)
    ensures WaitsOk(state, ppid', ring, waitsFor, occupant, awaited)
  {
  }

  /** And it may become the slot of a new process. */
  lemma Claim(state: seq<PState>, ppid: seq<nat>, exitStatus: seq<int>, occupant: seq<nat>, p: nat, ring: seq<nat>,
              current: nat, exits: map<(nat, nat), int>, waitsFor: map<nat, nat>, awaited: map<nat, nat>)
    requires |state| == |ppid| == |exitStatus| == |occupant| == PROC_MAX && p < PROC_MAX && state[p] == Unused
    requires QueueOk(state, ring, current) && ExitsOk(state, exitStatus, ring, occupant, exits)
    requires WaitsOk(state, ppid, ring, waitsFor, occupant, awaited)
    ensures var state' := state[p := Ready]; var occupant' := occupant[p := occupant[p] + 1];
      && QueueOk(state', ring, current) && ExitsOk(state', exitStatus, ring, occupant', exits)
      && WaitsOk(state', ppid, ring, waitsFor, occupant', awaited)
  {
  }

  /** A slot that is in use but not in the queue may be inserted. */
  lemma LinkKeeps(state: seq<PState>, ppid: seq<nat>, exitStatus: seq<int>, ring: seq<nat>, p: nat, current: nat,
                  occupant: seq<nat>, exits: map<(nat, nat), int>, waitsFor: map<nat, nat>, awaited: map<nat, nat>)
    requires |state| == |ppid| == |exitStatus| == |occupant| == PROC_MAX && |ring| > 0 && p < PROC_MAX
    requires state[p] != Unused && QueueOk(state, ring, current)
    requires ExitsOk(state, exitStatus, ring, occupant, exits)
    requires WaitsOk(state, ppid, ring, waitsFor, occupant, awaited)
    ensures var ring' := Inserted(ring, p);
      && QueueOk(state, ring', current) && ExitsOk(state, exitStatus, ring', occupant, exits)
      && WaitsOk(state, ppid, ring', waitsFor, occupant, awaited)
  {
    InsertMembers(ring, p);
  }

  /** The current process may become a zombie with the status it gives. */
  lemma ExitKeeps(state: seq<PState>, ppid: seq<nat>, exitStatus: seq<int>, ring: seq<nat>, current: nat, status: int,
                  occupant: seq<nat>, exits: map<(nat, nat), int>, waitsFor: map<nat, nat>, awaited: map<nat, nat>)
    requires |state| == |ppid| == |exitStatus| == |occupant| == PROC_MAX && current < PROC_MAX && current != 0
    requires state[current] == Running && current in ring && current !in waitsFor && QueueOk(state, ring, current)
    requires ExitsOk(state, exitStatus, ring, occupant, exits)
    requires WaitsOk(state, ppid, ring, waitsFor, occupant, awaited)
    ensures (current, occupant[current]) !in exits
    ensures var state' := state[current := Zombie]; var exits' := exits[(current, occupant[current]) := status];
      && QueueOk(state', ring, current)
      && ExitsOk(state', exitStatus[current := status], ring, occupant, exits')
      && WaitsOk(state', ppid, ring, waitsFor, occupant, awaited)
  {
  }

  /** The child the current process waits for, once a zombie, shows the status that child gave. */
  lemma AwaitedChild(state: seq<PState>, ppid: seq<nat>, exitStatus: seq<int>, ring: seq<nat>, current: nat,
                     occupant: seq<nat>, exits: map<(nat, nat), int>, waitsFor: map<nat, nat>, awaited: map<nat, nat>)
    requires |state| == |ppid| == |exitStatus| == |occupant| == PROC_MAX && current in waitsFor
    requires ExitsOk(state, exitStatus, ring, occupant, exits)
    requires WaitsOk(state, ppid, ring, waitsFor, occupant, awaited)
    ensures waitsFor[current] < PROC_MAX && current in awaited && occupant[waitsFor[current]] == awaited[current]
    ensures var child := waitsFor[current]; state[child] == Zombie ==>
      && child in ring && (child, awaited[current]) in exits
      && exitStatus[child] == exits[(child, awaited[current])]
  {
  }

  /** A zombie may leave the queue and its slot: only the current process waits for it. */
  lemma ReapKeeps(state: seq<PState>, ppid: seq<nat>, exitStatus: seq<int>, next: seq<int>, ring: seq<nat>, k: nat,
                  current: nat, occupant: seq<nat>, exits: map<(nat, nat), int>, waitsFor: map<nat, nat>,
                  awaited: map<nat, nat>)
    requires |state| == |ppid| == |exitStatus| == |occupant| == PROC_MAX && current < PROC_MAX && k < |ring|
    requires IsRing(next, ring) && ring[0] == current && state[current] == Running && state[ring[k]] == Zombie
    requires QueueOk(state, ring, current) && ExitsOk(state, exitStatus, ring, occupant, exits)
    requires WaitsOk(state, ppid, ring, waitsFor, occupant, awaited)
    requires current in waitsFor && waitsFor[current] == ring[k]
    ensures forall i | 0 <= i < |ring| && ring[i] == ring[k] :: i == k
    ensures |Without(ring, k)| > 0 && Without(ring, k)[0] == current
    ensures var state' := state[ring[k] := Unused]; var ring' := Without(ring, k);
            var waitsFor' := waitsFor - {current};
      && QueueOk(state', ring', current) && ExitsOk(state', exitStatus, ring', occupant, exits)
      && WaitsOk(state', ppid, ring', waitsFor', occupant, awaited)
  {
    WithoutMembers(ring, k);
  }

  /** Unlinking the successor of the member at i, which may be the head. */
  lemma RemoveAt(next: seq<int>, ring: seq<nat>, i: nat)
    requires IsRing(next, ring) && i < |ring|
    ensures var k := Succ(i, |ring|); var p := ring[k];
      && (next[p] == p <==> |ring| == 1)
      && (|ring| > 1 ==> IsRing(next[ring[i] := next[p]][p := -1], Without(ring, k)))
      && p !in Without(ring, k)
      && (|ring| > 1 ==> Without(ring, k)[0] == if k == 0 then next[p] else ring[0])
  {
    var n := |ring|;
    var k := Succ(i, n);
    WithoutMembers(ring, k);
    if n > 1 {
      if k > 0 {
        RemoveKeepsRing(next, ring, k);
      } else {
        RemoveHead(next, ring);
      }
    }
  }

  lemma RemoveHead(next: seq<int>, ring: seq<nat>)
    requires IsRing(next, ring) && |ring| > 1
    ensures IsRing(next[ring[|ring| - 1] := next[ring[0]]][ring[0] := -1], Without(ring, 0))
  {
    hide IsRing, Distinct;
    var n := |ring|;
    RotateKeepsRing(next, ring, 1);
    RemoveKeepsRing(next, Rotated(ring, 1), n - 1);
    assert Without(Rotated(ring, 1), n - 1) == Without(ring, 0);
    assert Rotated(ring, 1)[n - 1] == ring[0] && Rotated(ring, 1)[n - 2] == ring[n - 1];
  }
}
