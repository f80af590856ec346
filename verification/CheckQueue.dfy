/** The verification queue: one master and any number of workers that share a stack of checks under a mutex.
    A critical section is one step; the executions of single checks run between the sections of all threads. */
module CheckQueue {
  import opened Powers

  /** A verification: its identity and what running it returns. */
  datatype Check = Check(id: nat, ok: bool)

  /** The fields the mutex protects. */
  datatype Shared = Shared(queue: seq<Check>, nIdle: int, nTotal: int, fAllOk: bool, nTodo: int)

  /** Where a thread is in Loop. */
  datatype Thread =
    | Outside                                            // the master, between rounds
    | Entering                                           // about to lock for the first time
    | Asleep(notified: bool)                             // in cond.wait
    | Running(batch: seq<Check>, next: nat, fOk: bool)   // executing its batch without the lock
    | Finished                                           // a worker that has returned

  /** A completed round: the checks that were added and what Wait returned. */
  datatype Round = Round(checks: multiset<Check>, result: bool)

  /** All threads and the shared fields; thread 0 is the master.  added and completed are the checks of the
      current round, log the finished rounds. */
  datatype Config = Config(
    shared: Shared, threads: seq<Thread>, fQuit: bool, nBatchSize: nat,
    added: multiset<Check>, completed: multiset<Check>, log: seq<Round>)

  datatype Step =
    | Lock(t: nat)                                 // enter the critical section from outside or after a batch
    | Wake(t: nat)                                 // return from cond.wait, notified or not
    | Execute(t: nat)                              // run the next check of the batch
    | AddChecks(vChecks: seq<Check>, woken: nat)   // the master adds; woken is the worker notify_one picks
    | CallWait                                     // the master calls Wait

  const MASTER: nat := 0

  // ---- Sums over threads ----

  ghost function Held(p: Thread): multiset<Check>
  {
    if p.Running? then multiset(p.batch) else multiset{}
  }

  ghost function InFlight(ts: seq<Thread>): multiset<Check>
  {
    if |ts| == 0 then multiset{} else InFlight(ts[..|ts| - 1]) + Held(ts[|ts| - 1])
  }

  ghost function IdleCount(ts: seq<Thread>): nat
  {
    if |ts| == 0 then 0 else IdleCount(ts[..|ts| - 1]) + (if ts[|ts| - 1].Asleep? then 1 else 0)
  }

  ghost predicate InLoop(p: Thread)
  {
    p.Asleep? || p.Running?
  }

  ghost function LoopCount(ts: seq<Thread>): nat
  {
    if |ts| == 0 then 0 else LoopCount(ts[..|ts| - 1]) + (if InLoop(ts[|ts| - 1]) then 1 else 0)
  }

  lemma {:induction false} FlightAfter(ts: seq<Thread>, t: nat, p: Thread)
    requires t < |ts|
    ensures Held(ts[t]) <= InFlight(ts)
    ensures InFlight(ts[t := p]) == InFlight(ts) - Held(ts[t]) + Held(p)
  {
    hide Held;
    var k := |ts| - 1;
    if t == k {
      assert ts[t := p][..k] == ts[..k];
    } else {
      FlightAfter(ts[..k], t, p);
      assert ts[t := p][..k] == ts[..k][t := p];
    }
  }

  lemma {:induction false} IdleAfter(ts: seq<Thread>, t: nat, p: Thread)
    requires t < |ts|
    ensures IdleCount(ts[t := p]) == IdleCount(ts) - (if ts[t].Asleep? then 1 else 0) + (if p.Asleep? then 1 else 0)
  {
    var k := |ts| - 1;
    if t == k {
      assert ts[t := p][..k] == ts[..k];
    } else {
      IdleAfter(ts[..k], t, p);
      assert ts[t := p][..k] == ts[..k][t := p];
    }
  }

  lemma {:induction false} LoopAfter(ts: seq<Thread>, t: nat, p: Thread)
    requires t < |ts|
    ensures LoopCount(ts[t := p]) == LoopCount(ts) - (if InLoop(ts[t]) then 1 else 0) + (if InLoop(p) then 1 else 0)
  {
    hide InLoop;
    var k := |ts| - 1;
    if t == k {
      assert ts[t := p][..k] == ts[..k];
    } else {
      LoopAfter(ts[..k], t, p);
      assert ts[t := p][..k] == ts[..k][t := p];
    }
  }

  /** Changing one thread changes each sum by that thread's share. */
  lemma SumsAfter(ts: seq<Thread>, t: nat, p: Thread)
    requires t < |ts|
    ensures Held(ts[t]) <= InFlight(ts)
    ensures InFlight(ts[t := p]) == InFlight(ts) - Held(ts[t]) + Held(p)
    ensures IdleCount(ts[t := p]) == IdleCount(ts) - (if ts[t].Asleep? then 1 else 0) + (if p.Asleep? then 1 else 0)
    ensures LoopCount(ts[t := p]) == LoopCount(ts) - (if InLoop(ts[t]) then 1 else 0) + (if InLoop(p) then 1 else 0)
  {
    FlightAfter(ts, t, p);
    IdleAfter(ts, t, p);
    LoopAfter(ts, t, p);
  }

  ghost predicate AllOk(m: multiset<Check>)
  {
    forall c :: c in m ==> c.ok
  }

  // ---- The critical sections ----

  /** The clean-up at the head of a section: report a finished batch, or register the thread. */
  function CleanUp(s: Shared, nNow: nat, fOk: bool): Shared
  {
    if nNow > 0 then s.(fAllOk := s.fAllOk && fOk, nTodo := s.nTodo - nNow)
    else s.(nTotal := s.nTotal + 1)
  }

  /** How many checks to take from a non-empty queue. */
  function BatchSize(s: Shared, nBatchSize: nat): (n: nat)
    requires s.nTotal + s.nIdle + 1 > 0 && |s.queue| > 0
    ensures 1 <= n <= |s.queue|
  {
    var share := |s.queue| / (s.nTotal + s.nIdle + 1);
    ShareBound(|s.queue|, s.nTotal + s.nIdle + 1);
    var limited := if nBatchSize < share then nBatchSize else share;
    if limited > 1 then limited else 1
  }

  /** The largest batch that is no larger than the limit and the share of one more thread than are there; one check is
      taken in any case. */
  lemma BatchIs(s: Shared, nBatchSize: nat)
    requires s.nTotal + s.nIdle + 1 > 0 && |s.queue| > 0
    ensures var n, threads := BatchSize(s, nBatchSize), s.nTotal + s.nIdle + 1;
      && (n == 1 || (n <= nBatchSize && n * threads <= |s.queue|))
      && (nBatchSize <= n || |s.queue| < (n + 1) * threads)
  {
    var n, threads := BatchSize(s, nBatchSize), s.nTotal + s.nIdle + 1;
    var share := |s.queue| / threads;
    ShareBound(|s.queue|, threads);
    DivModEquation(|s.queue|, threads);
    if n <= share {
      MulMonotone(n, share, threads);
    }
    if share <= n {
      MulMonotone(share + 1, n + 1, threads);
    }
  }

  lemma ShareBound(n: nat, d: int)
    requires d > 0
    ensures 0 <= n / d <= n
  {
    DivModEquation(n, d);
    if n / d < 0 {
      MulMonotone(n / d, -1, d);
    } else {
      MulMonotone(1, d, n / d);
    }
  }

  /** The last n checks of the queue, last first: the order in which they are popped. */
  function Popped(queue: seq<Check>, n: nat): (b: seq<Check>)
    requires n <= |queue|
    ensures |b| == n
    decreases n
  {
    if n == 0 then [] else [queue[|queue| - 1]] + Popped(queue[..|queue| - 1], n - 1)
  }

  /** What is popped and what stays make up the queue. */
  lemma {:induction false} PoppedContents(queue: seq<Check>, n: nat)
    requires n <= |queue|
    ensures multiset(Popped(queue, n)) + multiset(queue[..|queue| - n]) == multiset(queue)
    decreases n
  {
    if n == 0 {
      assert queue[..|queue|] == queue;
    } else {
      var k := |queue| - 1;
      var front, rest, x := queue[..k], queue[..|queue| - n], queue[k];
      assert queue == front + [x] && front[..k - (n - 1)] == rest;
      PoppedContents(front, n - 1);
      OnePopped(x, Popped(front, n - 1), rest, front);
    }
  }

  lemma OnePopped(x: Check, batch: seq<Check>, rest: seq<Check>, front: seq<Check>)
    requires multiset(batch) + multiset(rest) == multiset(front)
    ensures multiset([x] + batch) + multiset(rest) == multiset(front + [x])
  {
  }

  /** How a critical section ends. */
  datatype Outcome = Take(batch: seq<Check>, fOk: bool) | Return(result: bool) | Wait

  /** The shared fields and the outcome at the end of a section, from the loop on. */
  function Settle(s: Shared, nBatchSize: nat, fMaster: bool, fQuit: bool): (Shared, Outcome)
    requires s.nTotal + s.nIdle + 1 > 0
  {
    if |s.queue| > 0 then
      var n := BatchSize(s, nBatchSize);
      (s.(queue := s.queue[..|s.queue| - n]), Take(Popped(s.queue, n), s.fAllOk))
    else if (fMaster || fQuit) && s.nTodo == 0 then
      (s.(nTotal := s.nTotal - 1, fAllOk := if fMaster then true else s.fAllOk), Return(s.fAllOk))
    else
      (s.(nIdle := s.nIdle + 1), Wait)
  }

  // ---- The steps ----

  /** Which thread a notification on condMaster reaches. */
  ghost function NotifyMaster(ts: seq<Thread>): seq<Thread>
  {
    if |ts| > 0 && ts[MASTER].Asleep? then ts[MASTER := Asleep(true)] else ts
  }

  /** notify_one reaches one sleeping worker, notify_all every one. */
  ghost function NotifyWorkers(ts: seq<Thread>, count: nat, woken: nat): seq<Thread>
  {
    seq(|ts|, i requires 0 <= i < |ts| =>
      if i != MASTER && ts[i].Asleep? && (count > 1 || (count == 1 && i == woken)) then Asleep(true) else ts[i])
  }

  /** The clean-up: thread t is inside the section, and its finished batch, if any, has been reported. */
  ghost function Unloaded(c: Config, t: nat): Config
    requires t < |c.threads|
  {
    var p := c.threads[t];
    c.(shared := CleanUp(c.shared, |Held(p)|, p.Running? && p.fOk),
       threads := c.threads[t := Entering],
       completed := c.completed + Held(p))
  }

  /** The head of a section: after the clean-up a worker that has reported the last check notifies the master. */
  ghost function Reported(c: Config, t: nat): Config
    requires t < |c.threads|
  {
    var u := Unloaded(c, t);
    if c.threads[t].Running? && u.shared.nTodo == 0 && t != MASTER then u.(threads := NotifyMaster(u.threads)) else u
  }

  /** Thread t has re-acquired the mutex in cond.wait. */
  ghost function Awakened(c: Config, t: nat): Config
    requires t < |c.threads|
  {
    c.(shared := c.shared.(nIdle := c.shared.nIdle - 1), threads := c.threads[t := Entering])
  }

  /** The rest of the section of thread t. */
  ghost function Decide(c: Config, t: nat): (c': Config)
    requires t < |c.threads| && c.shared.nTotal + c.shared.nIdle + 1 > 0
    ensures |c'.threads| == |c.threads|
  {
    var (s, out) := Settle(c.shared, c.nBatchSize, t == MASTER, c.fQuit);
    match out
    case Take(batch, fOk) =>
      c.(shared := s, threads := c.threads[t := Running(batch, 0, fOk)])
    case Wait =>
      c.(shared := s, threads := c.threads[t := Asleep(false)])
    case Return(result) =>
      if t == MASTER then
        c.(shared := s, threads := c.threads[t := Outside],
           added := multiset{}, completed := multiset{}, log := c.log + [Round(c.added, result)])
      else
        c.(shared := s, threads := c.threads[t := Finished])
  }

  ghost function Executed(p: Thread): Thread
    requires p.Running? && p.next < |p.batch|
  {
    p.(next := p.next + 1, fOk := p.fOk && p.batch[p.next].ok)
  }

  ghost predicate Enabled(c: Config, step: Step)
  {
    match step
    case Lock(t) => t < |c.threads|
      && (c.threads[t].Entering? || (c.threads[t].Running? && c.threads[t].next == |c.threads[t].batch|))
    case Wake(t) => t < |c.threads| && c.threads[t].Asleep?
    case Execute(t) => t < |c.threads| && c.threads[t].Running? && c.threads[t].next < |c.threads[t].batch|
    case AddChecks(_, _) => |c.threads| > 0 && c.threads[MASTER].Outside?
    case CallWait => |c.threads| > 0 && c.threads[MASTER].Outside?
  }

  /** The divisor in the batch size is positive. */
  ghost predicate Divides(c: Config, step: Step)
    requires Enabled(c, step)
  {
    match step
    case Lock(t) => Reported(c, t).shared.nTotal + Reported(c, t).shared.nIdle + 1 > 0
    case Wake(t) => Awakened(c, t).shared.nTotal + Awakened(c, t).shared.nIdle + 1 > 0
    case _ => true
  }

  ghost function Apply(c: Config, step: Step): Config
    requires Enabled(c, step) && Divides(c, step)
  {
    match step
    case Lock(t) => Decide(Reported(c, t), t)
    case Wake(t) => Decide(Awakened(c, t), t)
    case Execute(t) =>
      c.(threads := c.threads[t := Executed(c.threads[t])])
    case AddChecks(vChecks, woken) =>
      c.(shared := c.shared.(queue := c.shared.queue + vChecks, nTodo := c.shared.nTodo + |vChecks|),
         threads := NotifyWorkers(c.threads, |vChecks|, woken),
         added := c.added + multiset(vChecks))
    case CallWait =>
      c.(threads := c.threads[MASTER := Entering])
  }

  /** Adding one check wakes the worker picked, adding more wakes every sleeping worker; nobody else notices. */
  lemma AddWakes(c: Config, vChecks: seq<Check>, woken: nat)
    requires Enabled(c, AddChecks(vChecks, woken))
    ensures var c' := Apply(c, AddChecks(vChecks, woken));
      && c'.shared == c.shared.(queue := c.shared.queue + vChecks, nTodo := c.shared.nTodo + |vChecks|)
      && |c'.threads| == |c.threads|
      && (|vChecks| == 1 && 0 < woken < |c.threads| && c.threads[woken].Asleep? ==>
            c'.threads == c.threads[woken := Asleep(true)])
      && (|vChecks| > 1 ==> forall i :: 0 < i < |c.threads| && c.threads[i].Asleep? ==> c'.threads[i] == Asleep(true))
      && (forall i :: 0 <= i < |c.threads| && !c.threads[i].Asleep? ==> c'.threads[i] == c.threads[i])
  {
  }

  // ---- The invariant ----

  /** What a thread may hold, given the checks added in this round. */
  ghost predicate ThreadOk(p: Thread, i: nat, added: multiset<Check>)
  {
    && (p.Outside? ==> i == MASTER)
    && (p.Finished? ==> i != MASTER)
    && (p.Running? ==>
          && 0 < |p.batch| && p.next <= |p.batch|
          && (p.fOk ==> forall k :: 0 <= k < p.next ==> p.batch[k].ok)
          && (!p.fOk ==> !AllOk(added)))
  }

  ghost predicate ThreadsOk(ts: seq<Thread>, added: multiset<Check>)
  {
    |ts| > 0 && forall i :: 0 <= i < |ts| ==> ThreadOk(ts[i], i, added)
  }

  /** nTodo counts the queued checks and those in batches; no check is lost or duplicated. */
  ghost predicate Counted(c: Config)
  {
    && c.shared.nTodo == |c.shared.queue| + |InFlight(c.threads)|
    && multiset(c.shared.queue) + InFlight(c.threads) + c.completed == c.added
  }

  /** The running verdict is right for what has been completed, and it is false only for a reason. */
  ghost predicate VerdictOk(c: Config)
  {
    if c.shared.fAllOk then AllOk(c.completed) else !AllOk(c.added)
  }

  ghost predicate LogOk(log: seq<Round>)
  {
    forall i :: 0 <= i < |log| ==> (log[i].result <==> AllOk(log[i].checks))
  }

  /** A waiting master has nothing to take, and if nothing is pending it has been notified. */
  ghost predicate MasterOk(c: Config)
    requires |c.threads| > 0
  {
    c.threads[MASTER].Asleep? ==>
      && c.shared.queue == []
      && (!c.threads[MASTER].notified ==> c.shared.nTodo > 0)
  }

  ghost predicate Base(c: Config)
  {
    && ThreadsOk(c.threads, c.added)
    && Counted(c) && VerdictOk(c) && LogOk(c.log) && MasterOk(c)
    && c.shared.nIdle == IdleCount(c.threads)
  }

  ghost predicate Inv(c: Config)
  {
    Base(c) && c.shared.nTotal == LoopCount(c.threads)
  }

  /** Inside a section, thread t is registered but neither asleep nor holding checks. */
  ghost predicate Mid(c: Config, t: nat)
  {
    && Base(c) && c.shared.nTotal == LoopCount(c.threads) + 1
    && t < |c.threads| && c.threads[t].Entering?
  }

  ghost predicate Init(c: Config)
  {
    && c.shared == Shared([], 0, 0, true, 0)
    && |c.threads| > 0 && c.threads[MASTER].Outside?
    && (forall i :: 0 < i < |c.threads| ==> c.threads[i].Entering?)
    && c.added == multiset{} && c.completed == multiset{} && c.log == []
  }

  lemma {:induction false} QuietSums(ts: seq<Thread>)
    requires forall i :: 0 <= i < |ts| ==> ts[i].Outside? || ts[i].Entering?
    ensures InFlight(ts) == multiset{} && IdleCount(ts) == 0 && LoopCount(ts) == 0
  {
    if |ts| > 0 {
      QuietSums(ts[..|ts| - 1]);
    }
  }

  lemma InitInv(c: Config)
    requires Init(c)
    ensures Inv(c)
  {
    QuietSums(c.threads);
  }

  /** Everything of the invariant that does not depend on the master being notified. */
  ghost predicate Unnotified(c: Config, t: nat)
  {
    && ThreadsOk(c.threads, c.added)
    && Counted(c) && VerdictOk(c) && LogOk(c.log)
    && c.shared.nIdle == IdleCount(c.threads)
    && c.shared.nTotal == LoopCount(c.threads) + 1
    && t < |c.threads| && c.threads[t].Entering?
    && (c.threads[MASTER].Asleep? ==> c.shared.queue == [])
  }

  lemma UnloadKeeps(c: Config, t: nat)
    requires Inv(c) && Enabled(c, Lock(t))
    ensures Unnotified(Unloaded(c, t), t)
  {
    hide InFlight, IdleCount, LoopCount, ThreadOk, AllOk, VerdictOk, LogOk, ThreadsOk, Held;
    BatchVerdict(c, t);
    HeldSize(c.threads[t]);
    HeldSize(Entering);
    SumsAfter(c.threads, t, Entering);
    ThreadsAfter(c.threads, t, Entering, c.added);
    VerdictAfter(c, t);
    HandOver(multiset(c.shared.queue), InFlight(c.threads), Held(c.threads[t]), c.completed);
  }

  lemma NotifyKeeps(c: Config, t: nat)
    requires Unnotified(c, t) && c.threads[MASTER].Asleep? && t != MASTER
    ensures Mid(c.(threads := NotifyMaster(c.threads)), t)
  {
    hide InFlight, IdleCount, LoopCount, ThreadOk, AllOk, LogOk, ThreadsOk, Held;
    HeldSize(c.threads[MASTER]);
    HeldSize(Asleep(true));
    SumsAfter(c.threads, MASTER, Asleep(true));
    PlainThread(Asleep(true), MASTER, c.added);
    ThreadsAfter(c.threads, MASTER, Asleep(true), c.added);
  }

  lemma LockKeepsMid(c: Config, t: nat)
    requires Inv(c) && Enabled(c, Lock(t))
    ensures Mid(Reported(c, t), t)
  {
    hide InFlight, IdleCount, LoopCount, ThreadOk, AllOk, VerdictOk, LogOk, ThreadsOk, Held;
    UnloadKeeps(c, t);
    HeldSize(c.threads[t]);
    var u := Unloaded(c, t);
    if u.threads[MASTER].Asleep? && t != MASTER {
      NotifyKeeps(u, t);
    }
  }

  lemma HeldSize(p: Thread)
    ensures |Held(p)| == if p.Running? then |p.batch| else 0
    ensures !p.Running? ==> Held(p) == multiset{}
  {
  }

  /** Checks that leave a batch as completed are still accounted for. */
  lemma HandOver(queued: multiset<Check>, flight: multiset<Check>, batch: multiset<Check>, completed: multiset<Check>)
    requires batch <= flight
    ensures queued + (flight - batch) + (completed + batch) == queued + flight + completed
    ensures |flight - batch| == |flight| - |batch|
  {
    assert flight == (flight - batch) + batch;
  }

  lemma ThreadsAfter(ts: seq<Thread>, t: nat, p: Thread, added: multiset<Check>)
    requires ThreadsOk(ts, added) && t < |ts| && ThreadOk(p, t, added)
    ensures ThreadsOk(ts[t := p], added)
  {
    hide ThreadOk;
  }

  lemma PlainThread(p: Thread, i: nat, added: multiset<Check>)
    requires p.Entering? || p.Asleep? || (p.Outside? && i == MASTER) || (p.Finished? && i != MASTER)
    ensures ThreadOk(p, i, added)
  {
  }

  /** A finished batch that reports success contained no failing check. */
  lemma BatchVerdict(c: Config, t: nat)
    requires Inv(c) && Enabled(c, Lock(t))
    ensures c.threads[t].Running? ==> |c.threads[t].batch| > 0
    ensures c.threads[t].Running? && c.threads[t].fOk ==> AllOk(Held(c.threads[t]))
    ensures c.threads[t].Running? && !c.threads[t].fOk ==> !AllOk(c.added)
    ensures ThreadOk(Entering, t, c.added)
    ensures ThreadOk(Asleep(true), MASTER, c.added)
  {
    hide InFlight, IdleCount, LoopCount;
    assert ThreadOk(c.threads[t], t, c.added);
  }

  lemma VerdictAfter(c: Config, t: nat)
    requires Inv(c) && Enabled(c, Lock(t))
    ensures VerdictOk(Unloaded(c, t))
  {
    hide InFlight, IdleCount, LoopCount, ThreadOk;
    BatchVerdict(c, t);
  }

  lemma WakeKeepsMid(c: Config, t: nat)
    requires Inv(c) && Enabled(c, Wake(t))
    ensures Mid(Awakened(c, t), t)
  {
    hide InFlight, IdleCount, LoopCount;
    SumsAfter(c.threads, t, Entering);
  }

  // ---- Every step keeps the invariant ----

  lemma TakeKeeps(c: Config, t: nat)
    requires Mid(c, t) && |c.shared.queue| > 0
    ensures Inv(Decide(c, t))
  {
    hide InFlight, IdleCount, LoopCount, AllOk, LogOk, ThreadsOk, ThreadOk, Held, BatchSize, Popped;
    var n := BatchSize(c.shared, c.nBatchSize);
    var batch := Popped(c.shared.queue, n);
    PoppedContents(c.shared.queue, n);
    var p := Running(batch, 0, c.shared.fAllOk);
    HeldSize(c.threads[t]);
    HeldIs(p);
    SumsAfter(c.threads, t, p);
    FreshBatchOk(c, batch, t);
    ThreadsAfter(c.threads, t, p, c.added);
    TakeOver(multiset(c.shared.queue), multiset(c.shared.queue[..|c.shared.queue| - n]), multiset(batch),
      InFlight(c.threads), c.completed);
  }

  lemma FreshBatchOk(c: Config, batch: seq<Check>, t: nat)
    requires VerdictOk(c) && |batch| > 0
    ensures ThreadOk(Running(batch, 0, c.shared.fAllOk), t, c.added)
  {
  }

  lemma HeldIs(p: Thread)
    requires p.Running?
    ensures Held(p) == multiset(p.batch) && |Held(p)| == |p.batch|
  {
  }

  /** Checks that move from the queue into a batch are still accounted for. */
  lemma TakeOver(queued: multiset<Check>, rest: multiset<Check>, batch: multiset<Check>, flight: multiset<Check>,
      completed: multiset<Check>)
    requires batch + rest == queued
    ensures rest + (flight - multiset{} + batch) + completed == queued + flight + completed
    ensures |flight - multiset{} + batch| == |flight| + |batch|
  {
    assert flight - multiset{} == flight;
  }

  lemma NothingPending(c: Config, t: nat)
    requires Mid(c, t) && c.shared.queue == [] && c.shared.nTodo == 0
    ensures InFlight(c.threads) == multiset{} && c.completed == c.added
    ensures c.shared.fAllOk <==> AllOk(c.added)
  {
    hide InFlight, IdleCount, LoopCount, LogOk, ThreadsOk;
    assert |InFlight(c.threads)| == 0;
    assert multiset(c.shared.queue) == multiset{};
    assert c.completed == multiset(c.shared.queue) + InFlight(c.threads) + c.completed;
  }

  lemma ReturnKeeps(c: Config, t: nat)
    requires Mid(c, t) && c.shared.queue == [] && c.shared.nTodo == 0 && (t == MASTER || c.fQuit)
    ensures Inv(Decide(c, t))
  {
    hide InFlight, IdleCount, LoopCount, ThreadsOk, Held, ThreadOk;
    NothingPending(c, t);
    var p := if t == MASTER then Outside else Finished;
    HeldSize(c.threads[t]);
    HeldSize(p);
    SumsAfter(c.threads, t, p);
    PlainThread(p, t, c.added);
    ThreadsAfter(c.threads, t, p, c.added);
    if t == MASTER {
      NoneRunning(c.threads[t := p], c.added);
    }
  }

  /** Without checks in flight no thread is in a batch, so the threads fit a round without checks too. */
  lemma NoneRunning(ts: seq<Thread>, added: multiset<Check>)
    requires ThreadsOk(ts, added) && InFlight(ts) == multiset{}
    ensures ThreadsOk(ts, multiset{})
  {
    hide InFlight;
    forall i | 0 <= i < |ts| ensures ThreadOk(ts[i], i, multiset{}) {
      assert ThreadOk(ts[i], i, added);
      FlightAfter(ts, i, ts[i]);
      assert Held(ts[i]) == multiset{};
      HeldSize(ts[i]);
      assert !ts[i].Running?;
    }
  }

  lemma WaitKeeps(c: Config, t: nat)
    requires Mid(c, t) && c.shared.queue == [] && !((t == MASTER || c.fQuit) && c.shared.nTodo == 0)
    ensures Inv(Decide(c, t))
  {
    hide InFlight, IdleCount, LoopCount, ThreadsOk, Held, ThreadOk, AllOk, LogOk;
    HeldSize(c.threads[t]);
    HeldSize(Asleep(false));
    SumsAfter(c.threads, t, Asleep(false));
    PlainThread(Asleep(false), t, c.added);
    ThreadsAfter(c.threads, t, Asleep(false), c.added);
  }

  lemma DecideKeeps(c: Config, t: nat)
    requires Mid(c, t)
    ensures Inv(Decide(c, t))
  {
    hide Inv, Decide, ThreadsOk, InFlight, IdleCount, LoopCount, Counted, VerdictOk, LogOk;
    if |c.shared.queue| > 0 {
      TakeKeeps(c, t);
    } else if (t == MASTER || c.fQuit) && c.shared.nTodo == 0 {
      ReturnKeeps(c, t);
    } else {
      WaitKeeps(c, t);
    }
  }

  lemma ExecuteKeeps(c: Config, t: nat)
    requires Inv(c) && Enabled(c, Execute(t))
    ensures Inv(Apply(c, Execute(t)))
  {
    hide InFlight, IdleCount, LoopCount, LogOk, ThreadsOk, Held;
    var p, p' := c.threads[t], Executed(c.threads[t]);
    RunningOk(c.threads, t, c.added);
    HeldIs(p);
    HeldIs(p');
    SumsAfter(c.threads, t, p');
    ExecutedOk(c, t);
    ThreadsAfter(c.threads, t, p', c.added);
  }

  lemma RunningOk(ts: seq<Thread>, t: nat, added: multiset<Check>)
    requires ThreadsOk(ts, added) && t < |ts|
    ensures ThreadOk(ts[t], t, added)
  {
    hide ThreadOk;
  }

  /** A check that fails is one of the checks added in this round. */
  lemma ExecutedOk(c: Config, t: nat)
    requires Inv(c) && Enabled(c, Execute(t))
    ensures ThreadOk(Executed(c.threads[t]), t, c.added)
  {
    hide IdleCount, LoopCount, LogOk, InFlight;
    var p := c.threads[t];
    FlightAfter(c.threads, t, p);
    RunningOk(c.threads, t, c.added);
    var x := p.batch[p.next];
    assert x in Held(p) && x in InFlight(c.threads);
    assert x in c.added;
  }

  lemma NotifyKeepsShare(ts: seq<Thread>, count: nat, woken: nat, i: nat)
    requires i < |ts|
    ensures var p, q := ts[i], NotifyWorkers(ts, count, woken)[i];
      Held(q) == Held(p) && (q.Asleep? <==> p.Asleep?) && (InLoop(q) <==> InLoop(p))
  {
  }

  lemma {:induction false} NotifyKeepsSums(ts: seq<Thread>, count: nat, woken: nat)
    ensures InFlight(NotifyWorkers(ts, count, woken)) == InFlight(ts)
    ensures IdleCount(NotifyWorkers(ts, count, woken)) == IdleCount(ts)
    ensures LoopCount(NotifyWorkers(ts, count, woken)) == LoopCount(ts)
  {
    hide Held, InLoop;
    if |ts| > 0 {
      var k := |ts| - 1;
      NotifyKeepsSums(ts[..k], count, woken);
      NotifyKeepsShare(ts, count, woken, k);
      assert NotifyWorkers(ts, count, woken)[..k] == NotifyWorkers(ts[..k], count, woken);
      assert |NotifyWorkers(ts, count, woken)| == |ts|;
      hide NotifyWorkers;
    }
  }

  lemma AddKeeps(c: Config, vChecks: seq<Check>, woken: nat)
    requires Inv(c) && Enabled(c, AddChecks(vChecks, woken))
    ensures Inv(Apply(c, AddChecks(vChecks, woken)))
  {
    hide InFlight, IdleCount, LoopCount, LogOk, NotifyWorkers;
    NotifyKeepsSums(c.threads, |vChecks|, woken);
    NotifiedThreads(c.threads, |vChecks|, woken, c.added, vChecks);
    AddVerdict(c, vChecks);
    assert multiset(c.shared.queue + vChecks) == multiset(c.shared.queue) + multiset(vChecks);
  }

  lemma NotifiedThreads(ts: seq<Thread>, count: nat, woken: nat, added: multiset<Check>, vChecks: seq<Check>)
    requires ThreadsOk(ts, added)
    ensures ThreadsOk(NotifyWorkers(ts, count, woken), added + multiset(vChecks))
    ensures |NotifyWorkers(ts, count, woken)| == |ts| && NotifyWorkers(ts, count, woken)[MASTER] == ts[MASTER]
  {
    forall i | 0 <= i < |ts| ensures ThreadOk(NotifyWorkers(ts, count, woken)[i], i, added + multiset(vChecks)) {
      assert ThreadOk(ts[i], i, added);
    }
  }

  lemma AddVerdict(c: Config, vChecks: seq<Check>)
    requires VerdictOk(c)
    ensures VerdictOk(c.(added := c.added + multiset(vChecks)))
  {
  }

  lemma CallKeeps(c: Config)
    requires Inv(c) && Enabled(c, CallWait)
    ensures Inv(Apply(c, CallWait))
  {
    hide InFlight, IdleCount, LoopCount, LogOk, Held, ThreadsOk, ThreadOk, AllOk;
    HeldSize(c.threads[MASTER]);
    HeldSize(Entering);
    SumsAfter(c.threads, MASTER, Entering);
    PlainThread(Entering, MASTER, c.added);
    ThreadsAfter(c.threads, MASTER, Entering, c.added);
  }

  /** Every step of every thread is defined and keeps the invariant. */
  lemma StepKeeps(c: Config, step: Step)
    requires Inv(c) && Enabled(c, step)
    ensures Divides(c, step) && Inv(Apply(c, step))
  {
    hide Inv, Decide, Reported, Awakened;
    match step
    case Lock(t) =>
      LockKeepsMid(c, t);
      DecideKeeps(Reported(c, t), t);
    case Wake(t) =>
      WakeKeepsMid(c, t);
      DecideKeeps(Awakened(c, t), t);
    case Execute(t) => ExecuteKeeps(c, t);
    case AddChecks(vChecks, woken) => AddKeeps(c, vChecks, woken);
    case CallWait => CallKeeps(c);
  }

  // ---- What the invariant means ----

  /** Whether thread 0 is inside Wait. */
  ghost predicate InWait(c: Config)
  {
    |c.threads| > 0 && !c.threads[MASTER].Outside?
  }

  /** The step in which Wait returns: nothing is queued or in a batch, every check of the round has been
      completed, the result says whether all of them are true, and the next round starts from a clean slate. */
  lemma WaitIsExact(c: Config, step: Step)
    requires Inv(c) && Enabled(c, step)
    requires InWait(c) && Divides(c, step) && !InWait(Apply(c, step))
    ensures var c' := Apply(c, step);
      && c'.log == c.log + [Round(c.added, AllOk(c.added))]
      && c'.shared.queue == [] && c'.shared.nTodo == 0 && c'.shared.fAllOk
      && (forall i :: 0 <= i < |c'.threads| ==> !c'.threads[i].Running?)
      && c'.added == multiset{} && c'.completed == multiset{}
  {
    hide Inv, Reported, Awakened, AllOk, Decide, Mid;
    match step
    case Lock(t) =>
      LockKeepsMid(c, t);
      StepAddsNothing(c, t);
      ReturnIsExact(Reported(c, t), t);
    case Wake(t) =>
      WakeKeepsMid(c, t);
      StepAddsNothing(c, t);
      ReturnIsExact(Awakened(c, t), t);
    case Execute(t) =>
    case AddChecks(vChecks, woken) =>
    case CallWait =>
  }

  lemma StepAddsNothing(c: Config, t: nat)
    requires t < |c.threads|
    ensures |Reported(c, t).threads| == |c.threads| == |Awakened(c, t).threads|
    ensures Reported(c, t).added == c.added && Reported(c, t).log == c.log
    ensures Awakened(c, t).added == c.added && Awakened(c, t).log == c.log
    ensures t != MASTER ==> (Reported(c, t).threads[MASTER].Outside? <==> c.threads[MASTER].Outside?)
    ensures t != MASTER ==> (Awakened(c, t).threads[MASTER].Outside? <==> c.threads[MASTER].Outside?)
  {
  }

  lemma ReturnIsExact(c: Config, t: nat)
    requires Mid(c, t)
    requires (t != MASTER ==> !c.threads[MASTER].Outside?) && Decide(c, t).threads[MASTER].Outside?
    ensures t == MASTER
    ensures var c' := Decide(c, t);
      && c'.log == c.log + [Round(c.added, AllOk(c.added))]
      && c'.shared.queue == [] && c'.shared.nTodo == 0 && c'.shared.fAllOk
      && (forall i :: 0 <= i < |c'.threads| ==> !c'.threads[i].Running?)
      && c'.added == multiset{} && c'.completed == multiset{}
  {
    hide ThreadsOk, ThreadOk, InFlight, IdleCount, LoopCount, VerdictOk, LogOk, AllOk, BatchSize, Popped;
    NothingPending(c, t);
    forall i | 0 <= i < |c.threads| ensures !c.threads[i].Running? {
      RunningOk(c.threads, i, c.added);
      NotRunning(c.threads, i, c.added);
    }
  }

  lemma NotRunning(ts: seq<Thread>, i: nat, added: multiset<Check>)
    requires i < |ts| && ThreadOk(ts[i], i, added) && InFlight(ts) == multiset{}
    ensures !ts[i].Running?
  {
    hide InFlight;
    FlightAfter(ts, i, ts[i]);
    assert Held(ts[i]) == multiset{};
    HeldSize(ts[i]);
  }

  /** No wake-up is lost: a master asleep without a pending notification is waiting for some worker that
      holds a batch and has a step to take. */
  lemma NoLostWakeup(c: Config) returns (t: nat)
    requires Inv(c) && c.threads[MASTER] == Asleep(false)
    ensures 0 < t < |c.threads| && c.threads[t].Running?
    ensures Enabled(c, Execute(t)) || Enabled(c, Lock(t))
  {
    hide ThreadsOk, ThreadOk, IdleCount, LoopCount, VerdictOk, LogOk;
    assert |InFlight(c.threads)| > 0;
    t := SomeRunning(c.threads);
    RunningOk(c.threads, t, c.added);
    RunningCanStep(c, t);
  }

  lemma RunningCanStep(c: Config, t: nat)
    requires t < |c.threads| && c.threads[t].Running? && ThreadOk(c.threads[t], t, c.added)
    ensures Enabled(c, Execute(t)) || Enabled(c, Lock(t))
  {
  }

  lemma {:induction false} SomeRunning(ts: seq<Thread>) returns (t: nat)
    requires |InFlight(ts)| > 0
    ensures t < |ts| && ts[t].Running?
  {
    var k := |ts| - 1;
    if ts[k].Running? {
      t := k;
    } else {
      t := SomeRunning(ts[..k]);
    }
  }

  // ---- Runs ----

  /** A run: each configuration follows from the one before it by an enabled step.  Where a step would divide
      by zero, nothing is assumed of what follows. */
  ghost predicate IsRun(cs: seq<Config>, steps: seq<Step>)
  {
    && |cs| == |steps| + 1
    && Init(cs[0])
    && forall i :: 0 <= i < |steps| ==> Follows(cs[i], steps[i], cs[i + 1])
  }

  ghost predicate Follows(c: Config, step: Step, c': Config)
  {
    Enabled(c, step) && (Divides(c, step) ==> c' == Apply(c, step))
  }

  /** The checks added in the first n steps of a run. */
  ghost function AddedIn(steps: seq<Step>, n: nat): multiset<Check>
    requires n <= |steps|
  {
    if n == 0 then multiset{}
    else AddedIn(steps, n - 1) + (if steps[n - 1].AddChecks? then multiset(steps[n - 1].vChecks) else multiset{})
  }

  /** The checks of all finished rounds. */
  ghost function Judged(log: seq<Round>): multiset<Check>
  {
    if |log| == 0 then multiset{} else Judged(log[..|log| - 1]) + log[|log| - 1].checks
  }

  /** A step moves checks only from the caller into the round and from the round into the log. */
  lemma StepConserves(c: Config, step: Step)
    requires Inv(c) && Enabled(c, step) && Divides(c, step)
    ensures Judged(Apply(c, step).log) + Apply(c, step).added
      == Judged(c.log) + c.added + (if step.AddChecks? then multiset(step.vChecks) else multiset{})
  {
    hide Inv, Reported, Awakened;
    match step
    case Lock(t) =>
      StepAddsNothing(c, t);
      DecideConserves(Reported(c, t), t);
    case Wake(t) =>
      StepAddsNothing(c, t);
      DecideConserves(Awakened(c, t), t);
    case Execute(t) =>
    case AddChecks(vChecks, woken) =>
    case CallWait =>
  }

  lemma DecideConserves(c: Config, t: nat)
    requires t < |c.threads| && c.shared.nTotal + c.shared.nIdle + 1 > 0
    ensures Judged(Decide(c, t).log) + Decide(c, t).added == Judged(c.log) + c.added
  {
    hide BatchSize, Popped;
    var c' := Decide(c, t);
    if c'.log != c.log {
      assert c'.log[..|c'.log| - 1] == c.log;
    }
  }

  /** All interleavings: at every point of every run the invariant holds, every finished round was judged by
      exactly its own checks, and every check ever added is in one finished round or in the current one. */
  lemma {:induction false} RunsAreSafe(cs: seq<Config>, steps: seq<Step>, n: nat)
    requires IsRun(cs, steps) && n <= |steps|
    ensures Inv(cs[n])
    ensures LogOk(cs[n].log)
    ensures Judged(cs[n].log) + cs[n].added == AddedIn(steps, n)
    decreases n
  {
    hide Inv, Init, Apply, Enabled, Divides, LogOk;
    if n == 0 {
      InitInv(cs[0]);
      InitEmpty(cs[0]);
    } else {
      RunsAreSafe(cs, steps, n - 1);
      assert Follows(cs[n - 1], steps[n - 1], cs[n]);
      StepKeeps(cs[n - 1], steps[n - 1]);
      StepConserves(cs[n - 1], steps[n - 1]);
    }
    InvLog(cs[n]);
  }

  lemma InitEmpty(c: Config)
    requires Init(c)
    ensures Judged(c.log) + c.added == multiset{}
  {
  }

  lemma InvLog(c: Config)
    requires Inv(c)
    ensures LogOk(c.log)
  {
  }

  // ---- The code of the critical sections ----

  /** The queue object.  Each method is what one thread does while it holds the mutex, except RunBatch. */
  class CCheckQueue {
    var queue: seq<Check>
    var nIdle: int
    var nTotal: int
    var fAllOk: bool
    var nTodo: int
    const fQuit: bool
    const nBatchSize: nat

    ghost function View(): Shared
      reads this
    {
      Shared(queue, nIdle, nTotal, fAllOk, nTodo)
    }

    constructor (nBatchSizeIn: nat)
      ensures View() == Shared([], 0, 0, true, 0) && nBatchSize == nBatchSizeIn && !fQuit
    {
      queue, nIdle, nTotal, fAllOk, nTodo := [], 0, 0, true, 0;
      fQuit, nBatchSize := false, nBatchSizeIn;
    }

    /** A section of Loop that starts at its head.  notify tells whether the master is notified. */
    method Section(fMaster: bool, nNow: nat, fOk: bool) returns (out: Outcome, notify: bool)
      requires nTotal >= 0 && nIdle >= 0 && (nNow > 0 ==> nTotal > 0)
      modifies this
      ensures (View(), out) == Settle(CleanUp(old(View()), nNow, fOk), nBatchSize, fMaster, fQuit)
      ensures notify <==> nNow > 0 && old(nTodo) == nNow && !fMaster
    {
      hide Settle;
      notify := false;
      if nNow > 0 {
        fAllOk := fAllOk && fOk;
        nTodo := nTodo - nNow;
        if nTodo == 0 && !fMaster {
          notify := true;
        }
      } else {
        nTotal := nTotal + 1;
      }
      out := FromLoop(fMaster);
    }

    /** A section of Loop that starts with the return from cond.wait. */
    method SectionAfterWait(fMaster: bool) returns (out: Outcome)
      requires nTotal > 0 && nIdle > 0
      modifies this
      ensures (View(), out) == Settle(old(View()).(nIdle := old(nIdle) - 1), nBatchSize, fMaster, fQuit)
    {
      hide Settle;
      nIdle := nIdle - 1;
      out := FromLoop(fMaster);
    }

    /** The rest of a section: wait or return on an empty queue, otherwise move a batch out of it. */
    method FromLoop(fMaster: bool) returns (out: Outcome)
      requires nTotal + nIdle + 1 > 0
      modifies this
      ensures (View(), out) == Settle(old(View()), nBatchSize, fMaster, fQuit)
    {
      hide BatchSize, Popped;
      if |queue| == 0 {
        if (fMaster || fQuit) && nTodo == 0 {
          nTotal := nTotal - 1;
          var fRet := fAllOk;
          if fMaster {
            fAllOk := true;
          }
          return Return(fRet);
        }
        nIdle := nIdle + 1;
        return Wait;
      }
      var nNow := BatchSize(Shared(queue, nIdle, nTotal, fAllOk, nTodo), nBatchSize);
      var vChecks := Pop(nNow);
      return Take(vChecks, fAllOk);
    }

    /** Moves the last nNow checks out of the queue, last first. */
    method Pop(nNow: nat) returns (vChecks: seq<Check>)
      requires nNow <= |queue|
      modifies this`queue
      ensures vChecks == Popped(old(queue), nNow)
      ensures queue == old(queue)[..|old(queue)| - nNow]
    {
      vChecks := [];
      ghost var q := queue;
      for i := 0 to nNow
        invariant queue == q[..|q| - i]
        invariant vChecks + Popped(queue, nNow - i) == Popped(q, nNow)
      {
        ghost var rest := Popped(queue, nNow - i);
        vChecks := vChecks + [queue[|queue| - 1]];
        assert rest == [queue[|queue| - 1]] + Popped(queue[..|queue| - 1], nNow - i - 1);
        queue := queue[..|queue| - 1];
      }
    }

    /** Adds a batch of checks. */
    method Add(vChecks: seq<Check>)
      modifies this
      ensures View() == old(View()).(queue := old(queue) + vChecks, nTodo := old(nTodo) + |vChecks|)
    {
      for i := 0 to |vChecks|
        invariant View() == old(View()).(queue := old(queue) + vChecks[..i])
      {
        queue := queue + [vChecks[i]];
      }
      assert vChecks[..|vChecks|] == vChecks;
      nTodo := nTodo + |vChecks|;
    }
  }

  /** Runs a batch outside the mutex: once a check has failed, or if the round had already failed, the
      remaining checks are skipped. */
  method RunBatch(vChecks: seq<Check>, fOkIn: bool) returns (fOk: bool, ghost run: nat)
    ensures fOk <==> fOkIn && forall i :: 0 <= i < |vChecks| ==> vChecks[i].ok
    ensures run <= |vChecks|
    ensures fOkIn ==> forall i :: 0 <= i < run - 1 ==> vChecks[i].ok
    ensures run < |vChecks| ==> !fOk
  {
    fOk := fOkIn;
    run := 0;
    for i := 0 to |vChecks|
      invariant fOk <==> fOkIn && forall j :: 0 <= j < i ==> vChecks[j].ok
      invariant run <= i && (run < i ==> !fOk) && (run == 0 || vChecks[run - 1].ok || !fOk)
      invariant fOkIn ==> forall j :: 0 <= j < run - 1 ==> vChecks[j].ok
    {
      if fOk {
        fOk := vChecks[i].ok;
        run := i + 1;
      }
    }
  }
}
