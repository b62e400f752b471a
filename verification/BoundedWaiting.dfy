/** Whole runs of the scheduler.  `Run` executes any sequence of kernel operations and returns the history of the
    scheduler's state, one step of the relation `Next` for each operation; the lemmas are about every such
    history: how long a ready process can wait, and what waitpid returns. */
module BoundedWaiting {
  import opened Seqs
  import opened RunRing
  import opened Scheduler

  datatype Option<+T> = None | Some(value: T)

  /** What the running process, or the timer, can make the kernel do next. */
  datatype Op =
    | YieldOp
    | ForkOp(gotStack: bool, gotSpace: bool)
    | LaunchOp(gotStack: bool)
    | ExitOp(status: nat)
    | WaitOp(pid: nat)
    | PollOp

  /** A process inside process_waitpid only polls or is preempted; idle does not exit. */
  predicate Enabled(current: nat, waiting: bool, op: Op)
  {
    match op
    case YieldOp => true
    case LaunchOp(_) => true
    case ForkOp(_, _) => !waiting
    case WaitOp(_) => !waiting
    case ExitOp(_) => !waiting && current != 0
    case PollOp => waiting
  }

  // ----- States and steps

  datatype Snap = Snap(state: seq<PState>, ppid: seq<nat>, exitStatus: seq<int>, ring: seq<nat>, current: nat,
                       waitsFor: map<nat, nat>, occupant: seq<nat>, exits: map<(nat, nat), int>, awaited: map<nat, nat>)

  ghost function SnapOf(k: Kernel): Snap
    reads k
  {
    Snap(k.state, k.ppid, k.exitStatus, k.ring, k.current, k.waitsFor, k.occupant, k.exits, k.awaited)
  }

  /** The invariant of the scheduler, on a snapshot. */
  ghost predicate SnapOk(s: Snap)
  {
    && |s.state| == |s.ppid| == |s.exitStatus| == |s.occupant| == PROC_MAX
    && Distinct(s.ring) && (forall i | 0 <= i < |s.ring| :: s.ring[i] < PROC_MAX)
    && |s.ring| > 0 && s.ring[0] == s.current && s.current < PROC_MAX && s.state[s.current] == Running
    && QueueOk(s.state, s.ring, s.current) && ExitsOk(s.state, s.exitStatus, s.ring, s.occupant, s.exits)
    && WaitsOk(s.state, s.ppid, s.ring, s.waitsFor, s.occupant, s.awaited)
  }

  lemma ValidSnap(k: Kernel)
    requires k.Valid()
    ensures SnapOk(SnapOf(k))
  {
  }

  predicate CanDo(s: Snap, op: Op)
  {
    Enabled(s.current, s.current in s.waitsFor, op)
  }

  /** The switch of scheduler_yield, if there is another runnable process. */
  ghost predicate Yielded(s: Snap, s': Snap)
  {
    if NoneRunnable(s.state, s.ring) then s' == s
    else exists k :: SwitchedTo(s, k, s')
  }

  ghost predicate SwitchedTo(s: Snap, k: nat, s': Snap)
  {
    && FirstRunnable(s.state, s.ring, k) && s.current < PROC_MAX
    && s' == s.(ring := Rotated(s.ring, k), current := s.ring[k], state := Dispatched(s.state, s.current, s.ring[k]))
  }

  ghost predicate Exited(s: Snap, status: nat, k: nat, s': Snap)
  {
    && FirstRunnable(s.state, s.ring, k) && s.current < |s.occupant| && s.current < |s.exitStatus| && s.current < PROC_MAX
    && s' == s.(ring := Rotated(s.ring, k), current := s.ring[k],
                state := s.state[s.current := Zombie][s.ring[k] := Running],
                exitStatus := s.exitStatus[s.current := AsI32(status)],
                exits := s.exits[(s.current, s.occupant[s.current]) := AsI32(status)])
  }

  /** A child in slot c leaves queue and table. */
  ghost predicate Collected(s: Snap, c: nat, k: nat, s': Snap)
  {
    && k < |s.ring| && s.ring[k] == c && c < |s.state|
    && s' == s.(state := s.state[c := Unused], ring := Without(s.ring, k), waitsFor := s.waitsFor - {s.current})
  }

  /** A new process in slot p, right after the head of the queue. */
  ghost predicate Spawned(s: Snap, p: nat, ppid: seq<nat>, exitStatus: seq<int>, s': Snap)
  {
    && p < |s.state| && p < |s.occupant| && s.state[p] == Unused && p !in s.ring && |s.ring| > 0
    && s' == s.(state := s.state[p := Ready], ring := Inserted(s.ring, p), ppid := ppid, exitStatus := exitStatus,
                occupant := s.occupant[p := s.occupant[p] + 1])
  }

  ghost predicate SpawnedChild(s: Snap, p: nat, s': Snap)
  {
    p < |s.ppid| && p < |s.exitStatus| && Spawned(s, p, s.ppid[p := s.current], s.exitStatus[p := 0], s')
  }

  /** What each operation does to the scheduler's state. */
  ghost predicate Next(s: Snap, op: Op, s': Snap)
  {
    if !CanDo(s, op) then s' == s else
    match op
    case YieldOp => Yielded(s, s')
    case ExitOp(status) => exists k :: Exited(s, status, k, s')
    case WaitOp(pid) =>
      if pid < |s.state| && pid < |s.ppid| && pid < |s.occupant| && s.state[pid] != Unused && s.ppid[pid] == s.current
      then s' == s.(waitsFor := s.waitsFor[s.current := pid], awaited := s.awaited[s.current := s.occupant[pid]])
      else s' == s
    case PollOp => if Collects(s, op) then exists k :: Collected(s, s.waitsFor[s.current], k, s') else Yielded(s, s')
    case LaunchOp(_) =>
      if Inserts(s, op) > 0 then exists p :: Spawned(s, p, s.ppid, s.exitStatus, s') else s' == s
    case ForkOp(_, _) =>
      if Inserts(s, op) > 0
      then exists p: nat :: SpawnedChild(s, p, s')
      else && KeepsUsed(s.state, s.ppid, s.exitStatus, s'.ppid, s'.exitStatus)
           && s' == s.(ppid := s'.ppid, exitStatus := s'.exitStatus)
  }

  /** The poll finds the child a zombie. */
  ghost predicate Collects(s: Snap, op: Op)
  {
    op.PollOp? && s.current in s.waitsFor && s.waitsFor[s.current] < |s.state| && s.state[s.waitsFor[s.current]] == Zombie
  }

  /** Calls of scheduler_yield. */
  ghost function Turns(s: Snap, op: Op): nat
  {
    if CanDo(s, op) && (op.YieldOp? || op.ExitOp? || (op.PollOp? && !Collects(s, op))) then 1 else 0
  }

  /** Insertions into the queue. */
  ghost function Inserts(s: Snap, op: Op): nat
  {
    if CanDo(s, op) && !Full(s.state) && ((op.LaunchOp? && op.gotStack) || (op.ForkOp? && op.gotStack && op.gotSpace))
    then 1 else 0
  }

  /** What waitpid hands over: the slot, and the status of the occupant that was asked for. */
  ghost function Returned(s: Snap, op: Op): Option<(nat, int)>
    requires SnapOk(s)
  {
    if Collects(s, op) then var c := s.waitsFor[s.current]; Some((c, s.exits[(c, s.awaited[s.current])])) else None
  }

  /** A history: one step of Next for each operation. */
  ghost predicate Chain(hist: seq<Snap>, ops: seq<Op>)
  {
    && |hist| == |ops| + 1
    && (forall i | 0 <= i < |hist| :: SnapOk(hist[i]))
    && (forall i | 0 <= i < |ops| :: Next(hist[i], ops[i], hist[i + 1]))
  }

  // ----- Bounded waiting

  /** p waits for its turn. */
  ghost predicate Waiting(s: Snap, p: nat)
  {
    p in s.ring && p != s.current && p < |s.state| && s.state[p] == Ready
  }

  /** A switch either runs p or brings it nearer by at least one place. */
  lemma SwitchBrings(s: Snap, k: nat, p: nat)
    requires SnapOk(s) && FirstRunnable(s.state, s.ring, k) && Waiting(s, p) && p != s.ring[k]
    ensures p in Rotated(s.ring, k) && IndexOf(Rotated(s.ring, k), p) + 1 <= IndexOf(s.ring, p)
  {
    hide QueueOk, ExitsOk, WaitsOk;
    RotateDistinct(s.ring, k);
    RotateIndex(s.ring, k, p);
  }

  lemma NotAlone(s: Snap, p: nat)
    requires SnapOk(s) && Waiting(s, p)
    ensures !NoneRunnable(s.state, s.ring)
  {
    hide QueueOk, ExitsOk, WaitsOk;
    assert Runnable(s.state[s.ring[IndexOf(s.ring, p)]]);
  }

  lemma YieldProgress(s: Snap, s': Snap, p: nat)
    requires SnapOk(s) && Yielded(s, s') && Waiting(s, p) && s'.current != p
    ensures Waiting(s', p) && 1 + IndexOf(s'.ring, p) <= IndexOf(s.ring, p)
  {
    hide QueueOk, ExitsOk, WaitsOk, Rotated;
    NotAlone(s, p);
    var k :| SwitchedTo(s, k, s');
    SwitchBrings(s, k, p);
  }

  lemma ExitProgress(s: Snap, status: nat, s': Snap, p: nat)
    requires SnapOk(s) && Waiting(s, p) && s'.current != p && exists k :: Exited(s, status, k, s')
    ensures Waiting(s', p) && 1 + IndexOf(s'.ring, p) <= IndexOf(s.ring, p)
  {
    hide QueueOk, ExitsOk, WaitsOk, Rotated;
    var k :| Exited(s, status, k, s');
    SwitchBrings(s, k, p);
  }

  lemma CollectProgress(s: Snap, op: Op, s': Snap, p: nat)
    requires SnapOk(s) && SnapOk(s') && Waiting(s, p) && Collects(s, op)
    requires exists k :: Collected(s, s.waitsFor[s.current], k, s')
    ensures Waiting(s', p) && IndexOf(s'.ring, p) <= IndexOf(s.ring, p)
  {
    hide QueueOk, ExitsOk, WaitsOk, Without;
    var k :| Collected(s, s.waitsFor[s.current], k, s');
    RemoveIndex(s.ring, k, p);
  }

  lemma SpawnProgress(s: Snap, q: nat, ppid: seq<nat>, exitStatus: seq<int>, s': Snap, p: nat)
    requires SnapOk(s) && SnapOk(s') && Waiting(s, p) && Spawned(s, q, ppid, exitStatus, s')
    ensures Waiting(s', p) && IndexOf(s'.ring, p) == IndexOf(s.ring, p) + 1
  {
    hide QueueOk, ExitsOk, WaitsOk, Inserted;
    InsertIndex(s.ring, q, p);
  }

  /** Unless p runs, a yield brings it at least one place nearer and an insertion moves it one place back. */
  lemma NextProgress(s: Snap, op: Op, s': Snap, p: nat)
    requires SnapOk(s) && SnapOk(s') && Next(s, op, s') && Waiting(s, p) && s'.current != p
    ensures Waiting(s', p)
    ensures Turns(s, op) + IndexOf(s'.ring, p) <= IndexOf(s.ring, p) + Inserts(s, op)
  {
    hide SnapOk, Yielded, Exited, Collected, Spawned, Full, Collects;
    if CanDo(s, op) {
      match op
      case YieldOp => YieldProgress(s, s', p);
      case ExitOp(status) => ExitProgress(s, status, s', p);
      case WaitOp(_) =>
      case PollOp =>
        if Collects(s, op) {
          CollectProgress(s, op, s', p);
        } else {
          YieldProgress(s, s', p);
        }
      case LaunchOp(_) =>
        if Inserts(s, op) > 0 {
          var q :| Spawned(s, q, s.ppid, s.exitStatus, s');
          SpawnProgress(s, q, s.ppid, s.exitStatus, s', p);
        }
      case ForkOp(_, _) =>
        if Inserts(s, op) > 0 {
          var q: nat :| SpawnedChild(s, q, s');
          SpawnProgress(s, q, s.ppid[q := s.current], s.exitStatus[q := 0], s', p);
        }
    }
  }

  ghost function TotalTurns(hist: seq<Snap>, ops: seq<Op>, n: nat): nat
    requires n <= |ops| && n <= |hist|
  {
    if n == 0 then 0 else TotalTurns(hist, ops, n - 1) + Turns(hist[n - 1], ops[n - 1])
  }

  ghost function TotalInserts(hist: seq<Snap>, ops: seq<Op>, n: nat): nat
    requires n <= |ops| && n <= |hist|
  {
    if n == 0 then 0 else TotalInserts(hist, ops, n - 1) + Inserts(hist[n - 1], ops[n - 1])
  }

  lemma {:induction false} WaitProgress(hist: seq<Snap>, ops: seq<Op>, p: nat, n: nat)
    requires Chain(hist, ops) && n <= |ops| && Waiting(hist[0], p) && forall i | 0 < i <= n :: hist[i].current != p
    ensures Waiting(hist[n], p)
    ensures TotalTurns(hist, ops, n) + IndexOf(hist[n].ring, p) <= IndexOf(hist[0].ring, p) + TotalInserts(hist, ops, n)
  {
    hide Next, SnapOk, Turns, Inserts;
    if n > 0 {
      WaitProgress(hist, ops, p, n - 1);
      NextProgress(hist[n - 1], ops[n - 1], hist[n], p);
    }
  }

  /** A process that is ready at distance d from the head has run by the time scheduler_yield has been called d
      times plus once for each insertion. */
  lemma RunsInTime(hist: seq<Snap>, ops: seq<Op>, p: nat, n: nat)
    requires Chain(hist, ops) && n <= |ops| && Waiting(hist[0], p)
    requires TotalTurns(hist, ops, n) >= IndexOf(hist[0].ring, p) + TotalInserts(hist, ops, n)
    ensures exists i :: 0 < i <= n && hist[i].current == p
  {
    if forall i | 0 < i <= n :: hist[i].current != p {
      WaitProgress(hist, ops, p, n);
      HeadIsCurrent(hist[n], p);
    }
  }

  function Yields(ops: seq<Op>, n: nat): nat
    requires n <= |ops|
  {
    if n == 0 then 0 else Yields(ops, n - 1) + (if ops[n - 1].YieldOp? then 1 else 0)
  }

  function Spawns(ops: seq<Op>, n: nat): nat
    requires n <= |ops|
  {
    if n == 0 then 0 else Spawns(ops, n - 1) + (if ops[n - 1].ForkOp? || ops[n - 1].LaunchOp? then 1 else 0)
  }

  lemma {:induction false} AtLeastYields(hist: seq<Snap>, ops: seq<Op>, n: nat)
    requires n <= |ops| && n <= |hist|
    ensures Yields(ops, n) <= TotalTurns(hist, ops, n) && TotalInserts(hist, ops, n) <= Spawns(ops, n)
  {
    if n > 0 { AtLeastYields(hist, ops, n - 1); }
  }

  /** In particular, it has run once as many yields have been asked for as its distance plus the forks and launches. */
  lemma YieldsSuffice(hist: seq<Snap>, ops: seq<Op>, p: nat, n: nat)
    requires Chain(hist, ops) && n <= |ops| && Waiting(hist[0], p)
    requires Yields(ops, n) >= IndexOf(hist[0].ring, p) + Spawns(ops, n)
    ensures exists i :: 0 < i <= n && hist[i].current == p
  {
    hide Next, SnapOk, Turns, Inserts;
    AtLeastYields(hist, ops, n);
    RunsInTime(hist, ops, p, n);
  }

  lemma HeadIsCurrent(s: Snap, p: nat)
    requires SnapOk(s) && Waiting(s, p)
    ensures IndexOf(s.ring, p) > 0
  {
    hide QueueOk, ExitsOk, WaitsOk;
  }

  // ----- What waitpid returns

  /** The process (c, g) is over: its slot is unused, or has had a later occupant. */
  ghost predicate Gone(s: Snap, c: nat, g: nat)
  {
    && c < |s.occupant| && c < |s.state|
    && (g < s.occupant[c] || (g == s.occupant[c] && s.state[c] == Unused))
  }

  lemma StaysGone(s: Snap, op: Op, s': Snap, c: nat, g: nat)
    requires SnapOk(s) && SnapOk(s') && Next(s, op, s') && Gone(s, c, g)
    ensures Gone(s', c, g)
  {
    hide QueueOk, ExitsOk, WaitsOk, Full, Rotated, Without, Inserted, NoneRunnable, KeepsUsed, Distinct;
  }

  lemma {:induction false} GoneForGood(hist: seq<Snap>, ops: seq<Op>, i: nat, j: nat, c: nat, g: nat)
    requires Chain(hist, ops) && i <= j < |hist| && Gone(hist[i], c, g)
    ensures Gone(hist[j], c, g)
    decreases j
  {
    hide Next, SnapOk, Gone;
    if i < j {
      GoneForGood(hist, ops, i, j - 1, c, g);
      StaysGone(hist[j - 1], ops[j - 1], hist[j], c, g);
    }
  }

  /** waitpid returns no process twice: a later return of the same slot is of a later occupant. */
  lemma ReturnedOnce(hist: seq<Snap>, ops: seq<Op>, i: nat, j: nat)
    requires Chain(hist, ops) && i < j < |ops| && Collects(hist[i], ops[i]) && Collects(hist[j], ops[j])
    requires hist[i].waitsFor[hist[i].current] == hist[j].waitsFor[hist[j].current]
    ensures hist[i].awaited[hist[i].current] < hist[j].awaited[hist[j].current]
  {
    var c := hist[i].waitsFor[hist[i].current];
    AwaitedIs(hist[i]);
    AwaitedIs(hist[j]);
    CollectedIsGone(hist[i], ops[i], hist[i + 1]);
    hide Next, SnapOk;
    GoneForGood(hist, ops, i + 1, j, c, hist[i].occupant[c]);
  }

  lemma AwaitedIs(s: Snap)
    requires SnapOk(s) && s.current in s.waitsFor
    ensures s.current in s.awaited && s.waitsFor[s.current] < PROC_MAX
    ensures s.occupant[s.waitsFor[s.current]] == s.awaited[s.current]
  {
    hide QueueOk, ExitsOk;
  }

  lemma CollectedIsGone(s: Snap, op: Op, s': Snap)
    requires SnapOk(s) && Collects(s, op) && Next(s, op, s')
    ensures s.waitsFor[s.current] < |s.occupant| && Gone(s', s.waitsFor[s.current], s.occupant[s.waitsFor[s.current]])
  {
    hide QueueOk, ExitsOk, WaitsOk;
  }

  /** Operation i is the exit of process (c, g) with this status. */
  ghost predicate ExitOf(hist: seq<Snap>, ops: seq<Op>, i: nat, c: nat, g: nat, status: int)
  {
    && i < |ops| && i < |hist| && ops[i].ExitOp? && CanDo(hist[i], ops[i])
    && hist[i].current == c < |hist[i].occupant| && hist[i].occupant[c] == g && status == AsI32(ops[i].status)
  }

  lemma ExitsStep(s: Snap, op: Op, s': Snap, e: (nat, nat))
    requires SnapOk(s) && Next(s, op, s') && e in s'.exits
    ensures s.current < |s.occupant|
    ensures if op.ExitOp? && CanDo(s, op) && e == (s.current, s.occupant[s.current]) then s'.exits[e] == AsI32(op.status)
            else e in s.exits && s'.exits[e] == s.exits[e]
  {
    hide QueueOk, ExitsOk, WaitsOk, Full;
  }

  /** Every recorded status was recorded at the start, or given by an exit of that very process in the run. */
  lemma {:induction false} WhereFrom(hist: seq<Snap>, ops: seq<Op>, n: nat, e: (nat, nat))
    requires Chain(hist, ops) && n < |hist| && e in hist[n].exits
    ensures
      || (e in hist[0].exits && hist[0].exits[e] == hist[n].exits[e])
      || exists i: nat :: i < n && ExitOf(hist, ops, i, e.0, e.1, hist[n].exits[e])
  {
    hide Next, SnapOk;
    if n > 0 {
      ExitsStep(hist[n - 1], ops[n - 1], hist[n], e);
      var s, op := hist[n - 1], ops[n - 1];
      if op.ExitOp? && CanDo(s, op) && e == (s.current, s.occupant[s.current]) {
        assert ExitOf(hist, ops, n - 1, e.0, e.1, hist[n].exits[e]);
      } else {
        WhereFrom(hist, ops, n - 1, e);
        if !(e in hist[0].exits && hist[0].exits[e] == hist[n].exits[e]) {
          var i: nat :| i < n - 1 && ExitOf(hist, ops, i, e.0, e.1, hist[n - 1].exits[e]);
        }
      }
    }
  }

  /** The status waitpid returns is the one the process it waited for gave to exit. */
  lemma StatusGiven(hist: seq<Snap>, ops: seq<Op>, j: nat)
    requires Chain(hist, ops) && j < |ops| && Collects(hist[j], ops[j])
    ensures hist[j].current in hist[j].awaited && Returned(hist[j], ops[j]).Some?
    ensures var c := hist[j].waitsFor[hist[j].current]; var g := hist[j].awaited[hist[j].current];
            var r := Returned(hist[j], ops[j]).value;
      && r.0 == c
      && (((c, g) in hist[0].exits && r.1 == hist[0].exits[(c, g)])
          || exists i: nat :: i < j && ExitOf(hist, ops, i, c, g, r.1))
  {
    AwaitedIs(hist[j]);
    var c, g := hist[j].waitsFor[hist[j].current], hist[j].awaited[hist[j].current];
    assert (c, g) in hist[j].exits;
    hide Next, SnapOk;
    WhereFrom(hist, ops, j, (c, g));
  }

  // ----- The kernel makes such histories

  method YieldStep(kernel: Kernel)
    requires kernel.Valid()
    modifies kernel
    ensures kernel.Valid() && Yielded(old(SnapOf(kernel)), SnapOf(kernel))
  {
    hide QueueOk, ExitsOk, WaitsOk, IsRing, FirstRunnable, NoneRunnable, Dispatched, Rotated;
    ghost var s := SnapOf(kernel);
    var switched; ghost var k;
    switched, k := kernel.Yield();
    if switched {
      Exclusive(s.state, s.ring, k);
      assert SwitchedTo(s, k, SnapOf(kernel));
    }
  }

  lemma Exclusive(state: seq<PState>, ring: seq<nat>, k: nat)
    requires FirstRunnable(state, ring, k)
    ensures !NoneRunnable(state, ring)
  {
  }

  method ExitStep(kernel: Kernel, status: nat)
    requires kernel.Valid() && kernel.current != 0 && kernel.current !in kernel.waitsFor
    modifies kernel
    ensures kernel.Valid() && Next(old(SnapOf(kernel)), ExitOp(status), SnapOf(kernel))
  {
    hide QueueOk, ExitsOk, WaitsOk, IsRing, FirstRunnable, Rotated;
    ghost var s := SnapOf(kernel);
    ghost var k := kernel.Exit(status);
    assert Exited(s, status, k, SnapOf(kernel));
  }

  method PollStep(kernel: Kernel) returns (r: Option<(nat, int)>)
    requires kernel.Valid() && kernel.current in kernel.waitsFor
    modifies kernel
    ensures kernel.Valid() && Next(old(SnapOf(kernel)), PollOp, SnapOf(kernel))
    ensures SnapOk(old(SnapOf(kernel))) && r == Returned(old(SnapOf(kernel)), PollOp)
  {
    ValidSnap(kernel);
    AwaitedIs(SnapOf(kernel));
    hide Kernel.Valid, SnapOk, Rotated, Dispatched, Without, Next, Returned, Collects, FirstRunnable, NoneRunnable;
    ghost var s := SnapOf(kernel);
    var child := kernel.waitsFor[kernel.current];
    var done, status; ghost var k;
    done, status, k := kernel.WaitPoll();
    r := if done then Some((child, status)) else None;
    if done {
      assert SnapOf(kernel)
          == s.(state := s.state[child := Unused], ring := Without(s.ring, k), waitsFor := s.waitsFor - {s.current});
      CollectNext(s, k, SnapOf(kernel));
    } else {
      PollNext(s, k, SnapOf(kernel));
    }
  }

  lemma CollectNext(s: Snap, k: nat, s': Snap)
    requires SnapOk(s) && s.current in s.waitsFor
    requires var c := s.waitsFor[s.current]; c < |s.state| && s.state[c] == Zombie && Collected(s, c, k, s')
    ensures Next(s, PollOp, s') && s.current in s.awaited && (s.waitsFor[s.current], s.awaited[s.current]) in s.exits
    ensures var c := s.waitsFor[s.current]; Returned(s, PollOp) == Some((c, s.exits[(c, s.awaited[s.current])]))
  {
    hide QueueOk, IsRing, Without;
  }

  lemma PollNext(s: Snap, k: nat, s': Snap)
    requires SnapOk(s) && s.current in s.waitsFor
    requires s.waitsFor[s.current] < |s.state| && s.state[s.waitsFor[s.current]] != Zombie
    requires if NoneRunnable(s.state, s.ring) then s' == s else SwitchedTo(s, k, s')
    ensures Next(s, PollOp, s') && Returned(s, PollOp) == None
  {
    hide SnapOk, Rotated, Dispatched, FirstRunnable, NoneRunnable;
  }

  method SpawnStep(kernel: Kernel, op: Op)
    requires kernel.Valid() && (op.LaunchOp? || (op.ForkOp? && kernel.current !in kernel.waitsFor))
    modifies kernel
    ensures kernel.Valid() && Next(old(SnapOf(kernel)), op, SnapOf(kernel))
  {
    hide QueueOk, ExitsOk, WaitsOk, IsRing, Full, Inserted;
    ghost var s := SnapOf(kernel);
    RingNotEmpty(kernel);
    if op.LaunchOp? {
      var pid := kernel.Launch(op.gotStack);
      if pid >= 0 { assert Spawned(s, pid, s.ppid, s.exitStatus, SnapOf(kernel)); }
    } else {
      var pid := kernel.Fork(op.gotStack, op.gotSpace);
      if pid >= 0 { assert SpawnedChild(s, pid, SnapOf(kernel)); }
    }
  }

  lemma RingNotEmpty(kernel: Kernel)
    requires kernel.Valid()
    ensures |kernel.ring| > 0
  {
  }

  method WaitStep(kernel: Kernel, pid: nat)
    requires kernel.Valid() && kernel.current !in kernel.waitsFor
    modifies kernel
    ensures kernel.Valid() && Next(old(SnapOf(kernel)), WaitOp(pid), SnapOf(kernel))
  {
    hide QueueOk, ExitsOk, WaitsOk, IsRing;
    var ok := kernel.WaitBegin(pid);
  }

  lemma NothingDone(s: Snap, op: Op)
    requires SnapOk(s)
    ensures !CanDo(s, op) ==> Next(s, op, s) && Returned(s, op) == None
    ensures !op.PollOp? ==> Returned(s, op) == None
    ensures op.YieldOp? ==> forall s' | Yielded(s, s') :: Next(s, op, s')
  {
    hide SnapOk, Yielded;
  }

  /** One operation takes the kernel one step of Next, and returns what waitpid does. */
  method Step(kernel: Kernel, op: Op) returns (r: Option<(nat, int)>)
    requires kernel.Valid()
    modifies kernel
    ensures kernel.Valid() && Next(old(SnapOf(kernel)), op, SnapOf(kernel))
    ensures SnapOk(old(SnapOf(kernel))) && r == Returned(old(SnapOf(kernel)), op)
  {
    ValidSnap(kernel);
    hide QueueOk, ExitsOk, WaitsOk, IsRing, SnapOk, Yielded, Next, Returned;
    NothingDone(SnapOf(kernel), op);
    r := None;
    if !Enabled(kernel.current, kernel.current in kernel.waitsFor, op) { return; }
    match op {
      case YieldOp => YieldStep(kernel);
      case ExitOp(status) => ExitStep(kernel, status);
      case WaitOp(pid) => WaitStep(kernel, pid);
      case PollOp => r := PollStep(kernel);
      case _ => SpawnStep(kernel, op);
    }
  }

  /** The first n operations have made this history, and returned these results. */
  ghost predicate SoFar(hist: seq<Snap>, ops: seq<Op>, results: seq<Option<(nat, int)>>, n: nat)
  {
    && n <= |ops| && Chain(hist, ops[..n]) && |results| == n
    && (forall i | 0 <= i < n :: results[i] == Returned(hist[i], ops[i]))
  }

  lemma OneMore(hist: seq<Snap>, ops: seq<Op>, results: seq<Option<(nat, int)>>, n: nat, s: Snap, r: Option<(nat, int)>)
    requires SoFar(hist, ops, results, n) && n < |ops| && SnapOk(s)
    requires Next(hist[n], ops[n], s) && r == Returned(hist[n], ops[n])
    ensures SoFar(hist + [s], ops, results + [r], n + 1)
  {
    hide Next, SnapOk, Returned;
    var hist', ops' := hist + [s], ops[..n + 1];
    forall i | 0 <= i < n + 1 ensures Next(hist'[i], ops'[i], hist'[i + 1]) {
      if i < n {
        assert Next(hist[i], ops[..n][i], hist[i + 1]);
      }
    }
  }

  /** Any run is a history from the state at the start to the state at the end that keeps the invariant, and
      returns for every operation what waitpid returns in that history. */
  method Run(kernel: Kernel, ops: seq<Op>) returns (results: seq<Option<(nat, int)>>, ghost hist: seq<Snap>)
    requires kernel.Valid()
    modifies kernel
    ensures kernel.Valid() && Chain(hist, ops) && |results| == |ops|
    ensures hist[0] == old(SnapOf(kernel)) && hist[|ops|] == SnapOf(kernel)
    ensures forall i | 0 <= i < |ops| :: results[i] == Returned(hist[i], ops[i])
  {
    ValidSnap(kernel);
    hide Next, SnapOk, Returned, QueueOk, ExitsOk, WaitsOk, IsRing;
    results, hist := [], [SnapOf(kernel)];
    for i := 0 to |ops|
      invariant kernel.Valid() && SoFar(hist, ops, results, i)
      invariant hist[0] == old(SnapOf(kernel)) && hist[i] == SnapOf(kernel)
    {
      var r := Step(kernel, ops[i]);
      ValidSnap(kernel);
      OneMore(hist, ops, results, i, SnapOf(kernel), r);
      results, hist := results + [r], hist + [SnapOf(kernel)];
    }
    assert ops[..|ops|] == ops;
  }
}
