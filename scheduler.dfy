/** The scheduler of threads/thread.c: the global ready, sleep and
    destruction lists, the running thread, the tid counter and the tick
    counters, as one object whose methods are the C functions. Interrupts
    are off inside every function modelled here, so each method is one
    atomic step; the context switch is the assignment to `running`. */
module Scheduler {
  import opened Thread
  import opened OrderedList
  import opened Wakeup

  /** The first value of allocate_tid's counter. */
  const FIRST_TID: Tid := 1

  /** thread_ticks is an unsigned int: it counts modulo 2^32. */
  const TICKS_WRAP: nat := 0x1_0000_0000

  /** The arena: the running, idle and initial threads are live, idle and
      initial differ, every live tid was handed out by allocate_tid, every
      record carries the canary, effective priority is never below the base
      priority and equals it without donors, and the idle thread never dies. */
  ghost predicate ArenaOk(m: map<Tid, ThreadRec>, running: Tid, idle: Tid, initial: Tid, nextTid: Tid) {
    && running in m && idle in m && initial in m && idle != initial
    && (forall t :: t in m ==> FIRST_TID <= t < nextTid)
    && (forall t :: t in m ==> m[t].magic == THREAD_MAGIC)
    && (forall t :: t in m ==> m[t].priority >= m[t].oldPriority)
    && (forall t :: t in m && m[t].donations == [] ==> m[t].priority == m[t].oldPriority)
    && m[idle].status != Dying
  }

  /** The ready list holds each READY thread other than idle exactly once, in
      priority order. */
  ghost predicate ReadyQueueOk(m: map<Tid, ThreadRec>, ready: seq<Tid>, idle: Tid) {
    && NoDup(ready)
    && (forall t :: t in ready ==> t in m && m[t].status == Ready)
    && idle !in ready
    && Sorted(ready, m, ByPriority)
    && (forall t :: t in m && m[t].status == Ready && t != idle ==> t in ready)
  }

  /** The sleep list holds distinct BLOCKED threads, never idle. */
  ghost predicate SleepListOk(m: map<Tid, ThreadRec>, sleep: seq<Tid>, idle: Tid) {
    && NoDup(sleep)
    && (forall t :: t in sleep ==> t in m && m[t].status == Blocked)
    && idle !in sleep
  }

  /** The destruction list holds the one DYING thread, if any, whose page
      awaits freeing: every DYING thread other than the initial and the
      running one is on it. */
  ghost predicate DestructionOk(m: map<Tid, ThreadRec>, d: seq<Tid>, running: Tid, initial: Tid) {
    && |d| <= 1
    && (forall t :: t in d ==> t in m && m[t].status == Dying && t != initial && t != running)
    && (forall t :: t in m && m[t].status == Dying && t != initial && t != running ==> t in d)
  }

  /** Exactly one thread is RUNNING: the running one. */
  ghost predicate RunningOk(m: map<Tid, ThreadRec>, running: Tid) {
    && running in m && m[running].status == Running
    && (forall t :: t in m && m[t].status == Running ==> t == running)
  }

  /** The scheduler's invariant over its state. */
  ghost predicate Inv(m: map<Tid, ThreadRec>, ready: seq<Tid>, sleep: seq<Tid>, d: seq<Tid>, running: Tid,
                      idle: Tid, initial: Tid, nextTid: Tid, threadTicks: nat) {
    && ArenaOk(m, running, idle, initial, nextTid)
    && threadTicks < TICKS_WRAP
    && ReadyQueueOk(m, ready, idle)
    && SleepListOk(m, sleep, idle)
    && DestructionOk(m, d, running, initial)
    && RunningOk(m, running)
  }

  /** No thread is queued twice: the ready list, the sleep list and the
      destruction list are pairwise disjoint, and neither the running thread
      nor idle waits on the ready list. */
  lemma NoDoubleQueueing(m: map<Tid, ThreadRec>, ready: seq<Tid>, sleep: seq<Tid>, d: seq<Tid>, running: Tid,
                         idle: Tid, initial: Tid, nextTid: Tid, threadTicks: nat)
    requires Inv(m, ready, sleep, d, running, idle, initial, nextTid, threadTicks)
    ensures forall t :: t in ready ==> t !in sleep && t !in d
    ensures forall t :: t in sleep ==> t !in d
    ensures running !in ready && running !in sleep && running !in d && idle !in ready
  {
    assert ReadyQueueOk(m, ready, idle) && SleepListOk(m, sleep, idle);
    assert DestructionOk(m, d, running, initial) && RunningOk(m, running);
  }

  /** What schedule expects: the outgoing thread has left RUNNING (no thread
      is RUNNING), and a dying outgoing thread finds the destruction list
      drained. */
  ghost predicate SwitchOk(m: map<Tid, ThreadRec>, ready: seq<Tid>, sleep: seq<Tid>, d: seq<Tid>,
                           cur: Tid, idle: Tid, initial: Tid, nextTid: Tid) {
    && ArenaOk(m, cur, idle, initial, nextTid)
    && ReadyQueueOk(m, ready, idle)
    && SleepListOk(m, sleep, idle)
    && DestructionOk(m, d, cur, initial)
    && (forall t :: t in m ==> m[t].status != Running)
    && (m[cur].status == Dying && cur != initial ==> d == [])
  }

  /** next_thread_to_run: the front of the ready list, or idle when it is empty. */
  function NextOf(ready: seq<Tid>, idle: Tid): (n: Tid)
    ensures n in ready || (ready == [] && n == idle)
  {
    if ready == [] then idle else ready[0]
  }

  /** The destruction list after schedule switches from `cur` to `next`. */
  function QueuedForFree(m: map<Tid, ThreadRec>, d: seq<Tid>, cur: Tid, next: Tid, initial: Tid): (q: seq<Tid>)
    requires cur in m
    ensures d <= q && |q| <= |d| + 1
    ensures q != d ==> q == d + [cur] && cur != next && cur != initial && m[cur].status == Dying
  {
    if cur != next && m[cur].status == Dying && cur != initial then d + [cur] else d
  }

  /** The state schedule leaves when it starts from records `m`, ready list
      `r`, destruction list `d` and outgoing thread `cur`: the front of `r`
      (idle when `r` is empty) is taken off and RUNNING with a fresh slice. */
  ghost predicate Switched(m: map<Tid, ThreadRec>, r: seq<Tid>, d: seq<Tid>, cur: Tid, idle: Tid, initial: Tid,
                           m': map<Tid, ThreadRec>, r': seq<Tid>, d': seq<Tid>, running': Tid, ticks': nat)
    ensures Switched(m, r, d, cur, idle, initial, m', r', d', running', ticks') ==>
      && m'.Keys == m.Keys && running' in m' && m'[running'].status == Running
      && |r'| == (if r == [] then 0 else |r| - 1)
  {
    var next := NextOf(r, idle);
    && next in m && cur in m
    && running' == next
    && m' == m[next := m[next].(status := Running)]
    && r' == (if r == [] then [] else r[1..])
    && d' == QueuedForFree(m, d, cur, next, initial)
    && ticks' == 0
  }

  /** Switching threads restores the full invariant: the chosen thread is the
      only RUNNING one, the ready list loses its front, and a dying outgoing
      thread is queued for freeing. */
  lemma SwitchKeepsValid(m: map<Tid, ThreadRec>, ready: seq<Tid>, sleep: seq<Tid>, d: seq<Tid>,
                         cur: Tid, idle: Tid, initial: Tid, nextTid: Tid,
                         m': map<Tid, ThreadRec>, ready': seq<Tid>, d': seq<Tid>, running': Tid, ticks': nat)
    requires SwitchOk(m, ready, sleep, d, cur, idle, initial, nextTid)
    requires Switched(m, ready, d, cur, idle, initial, m', ready', d', running', ticks')
    ensures Inv(m', ready', sleep, d', running', idle, initial, nextTid, ticks')
  {
    var next := NextOf(ready, idle);
    if ready != [] {
      assert ready[0] in ready;
      PopFront(ready, m, ByPriority);
      SortedFrame(ready', m, m', ByPriority);
    }
    assert next !in sleep;
    assert d == [] || d[0] != next;
  }

  /** A thread that is not READY joins the ready list once, in priority
      order, and the list stays well formed (thread_unblock, and thread_yield
      and thread_create for the thread that gives up the CPU). */
  lemma EnqueueKeepsReady(m: map<Tid, ThreadRec>, ready: seq<Tid>, t: Tid, idle: Tid)
    requires ReadyQueueOk(m, ready, idle) && t in m && m[t].status != Ready && t != idle
    ensures var m' := m[t := m[t].(status := Ready)];
      var ready' := InsertOrdered(ready, t, m, ByPriority);
      && ReadyQueueOk(m', ready', idle)
      && multiset(ready')[t] == 1
  {
    var m' := m[t := m[t].(status := Ready)];
    var ready' := InsertOrdered(ready, t, m, ByPriority);
    assert t !in ready;
    InsertFresh(ready, t, m, ByPriority);
    InsertOrderedSorted(ready, t, m, ByPriority);
    SortedFrame(ready', m, m', ByPriority);
  }

  /** Replacing the record of a thread that is not on the ready list by one
      that is not READY (or is idle's) leaves the ready list well formed. */
  lemma ReadyFrame(m: map<Tid, ThreadRec>, ready: seq<Tid>, idle: Tid, t: Tid, r: ThreadRec)
    requires ReadyQueueOk(m, ready, idle) && t !in ready
    requires r.status == Ready ==> t == idle
    ensures ReadyQueueOk(m[t := r], ready, idle)
  {
    SortedFrame(ready, m, m[t := r], ByPriority);
  }

  /** thread_block: the running thread leaves the CPU as BLOCKED. */
  lemma BlockKeepsSwitchOk(m: map<Tid, ThreadRec>, ready: seq<Tid>, sleep: seq<Tid>, d: seq<Tid>,
                           cur: Tid, idle: Tid, initial: Tid, nextTid: Tid, ticks: nat)
    requires Inv(m, ready, sleep, d, cur, idle, initial, nextTid, ticks)
    ensures SwitchOk(m[cur := m[cur].(status := Blocked)], ready, sleep, d, cur, idle, initial, nextTid)
  {
    ReadyFrame(m, ready, idle, cur, m[cur].(status := Blocked));
  }

  /** thread_sleep: the running thread, not idle, leaves the CPU as BLOCKED
      with its wake-up tick set and joins the sleep list once. */
  lemma SleepKeepsSwitchOk(m: map<Tid, ThreadRec>, ready: seq<Tid>, sleep: seq<Tid>, d: seq<Tid>,
                           cur: Tid, idle: Tid, initial: Tid, nextTid: Tid, ticks: nat, tick: int, o: Order)
    requires Inv(m, ready, sleep, d, cur, idle, initial, nextTid, ticks) && cur != idle
    ensures var m' := m[cur := m[cur].(wakeupTick := tick, status := Blocked)];
      var sleep' := InsertOrdered(sleep, cur, m', o);
      && SwitchOk(m', ready, sleep', d, cur, idle, initial, nextTid)
      && multiset(sleep')[cur] == 1
  {
    var m' := m[cur := m[cur].(wakeupTick := tick, status := Blocked)];
    ReadyFrame(m, ready, idle, cur, m'[cur]);
    assert cur !in sleep;
    InsertFresh(sleep, cur, m', o);
  }

  /** The records left once the threads of `d` have been freed. */
  function Freed(m: map<Tid, ThreadRec>, d: seq<Tid>): (f: map<Tid, ThreadRec>)
    ensures f.Keys <= m.Keys
    ensures forall t :: t in d ==> t !in f
  {
    map t | t in m && t !in d :: m[t]
  }

  /** Freeing one more page removes exactly its record. */
  lemma FreedStep(m: map<Tid, ThreadRec>, d: seq<Tid>, v: Tid)
    ensures (map t | t in Freed(m, d) && t != v :: Freed(m, d)[t]) == Freed(m, d + [v])
  {
    assert forall t :: t in d + [v] <==> t in d || t == v;
  }

  /** What do_schedule expects: the state is valid except that the running
      thread's list element is already where status `st` puts it (on the ready
      list for READY, nowhere for DYING, and never the idle thread's). */
  ghost predicate DoScheduleOk(m: map<Tid, ThreadRec>, ready: seq<Tid>, sleep: seq<Tid>, d: seq<Tid>,
                               cur: Tid, idle: Tid, initial: Tid, nextTid: Tid, st: Status) {
    && ArenaOk(m, cur, idle, initial, nextTid)
    && ReadyQueueOk(m[cur := m[cur].(status := st)], ready, idle)
    && SleepListOk(m, sleep, idle)
    && DestructionOk(m, d, cur, initial)
    && RunningOk(m, cur)
    && (st == Ready || (st == Dying && cur != idle))
  }

  /** Freeing the queued pages and giving the running thread its new status
      leaves a state schedule can switch from. */
  lemma DrainKeepsSwitchOk(m: map<Tid, ThreadRec>, ready: seq<Tid>, sleep: seq<Tid>, d: seq<Tid>,
                           cur: Tid, idle: Tid, initial: Tid, nextTid: Tid, st: Status)
    requires DoScheduleOk(m, ready, sleep, d, cur, idle, initial, nextTid, st)
    ensures var f := Freed(m, d);
      && cur in f
      && SwitchOk(f[cur := f[cur].(status := st)], ready, sleep, [], cur, idle, initial, nextTid)
  {
    var f := Freed(m, d);
    var f' := f[cur := f[cur].(status := st)];
    var mst := m[cur := m[cur].(status := st)];
    assert forall t :: t in f' ==> t in mst && f'[t] == mst[t];
    SortedFrame(ready, mst, f', ByPriority);
  }

  /** The new thread's ready-list step of thread_create: a record that is
      not yet in the arena joins it READY and joins the ready list once. */
  lemma AdmitKeepsReady(m: map<Tid, ThreadRec>, ready: seq<Tid>, idle: Tid, tid: Tid, rec: ThreadRec)
    requires ReadyQueueOk(m, ready, idle) && tid !in m && tid != idle && rec.status != Ready
    ensures var mA := m[tid := rec.(status := Ready)];
      var r1 := InsertOrdered(ready, tid, mA, ByPriority);
      && ReadyQueueOk(mA, r1, idle)
      && multiset(r1)[tid] == 1
  {
    var mA := m[tid := rec.(status := Ready)];
    var r1 := InsertOrdered(ready, tid, mA, ByPriority);
    assert tid !in ready;
    SortedFrame(ready, m, mA, ByPriority);
    InsertOrderedSorted(ready, tid, mA, ByPriority);
    InsertFresh(ready, tid, mA, ByPriority);
    assert multiset(r1)[tid] == multiset(ready)[tid] + 1;
  }

  /** thread_create: a fresh record for the next tid joins the arena READY
      and the ready list once, and becomes the creator's last child. */
  lemma CreateKeepsValid(m: map<Tid, ThreadRec>, ready: seq<Tid>, sleep: seq<Tid>, d: seq<Tid>,
                         cur: Tid, idle: Tid, initial: Tid, nextTid: Tid, ticks: nat, rec: ThreadRec)
    requires Inv(m, ready, sleep, d, cur, idle, initial, nextTid, ticks)
    requires rec.status == Blocked && rec.magic == THREAD_MAGIC && rec.priority == rec.oldPriority
    ensures var mA := m[nextTid := rec.(status := Ready)];
      var r1 := InsertOrdered(ready, nextTid, mA, ByPriority);
      var m1 := mA[cur := mA[cur].(childList := mA[cur].childList + [nextTid])];
      && Inv(m1, r1, sleep, d, cur, idle, initial, nextTid + 1, ticks)
      && multiset(r1)[nextTid] == 1
  {
    var tid := nextTid;
    var mA := m[tid := rec.(status := Ready)];
    var r1 := InsertOrdered(ready, tid, mA, ByPriority);
    var m1 := mA[cur := mA[cur].(childList := mA[cur].childList + [tid])];
    assert tid !in m;
    AdmitKeepsReady(m, ready, idle, tid, rec);
    InsertFresh(ready, tid, mA, ByPriority);
    assert cur !in r1;
    ReadyFrame(mA, r1, idle, cur, m1[cur]);
    assert ArenaOk(m1, cur, idle, initial, tid + 1);
    assert SleepListOk(m1, sleep, idle);
    assert DestructionOk(m1, d, cur, initial);
  }

  /** The running thread, not idle, goes back on the ready list as READY:
      a state schedule can switch from. */
  lemma RequeueKeepsSwitchOk(m: map<Tid, ThreadRec>, ready: seq<Tid>, sleep: seq<Tid>, d: seq<Tid>,
                             cur: Tid, idle: Tid, initial: Tid, nextTid: Tid, ticks: nat)
    requires Inv(m, ready, sleep, d, cur, idle, initial, nextTid, ticks) && cur != idle
    ensures var m' := m[cur := m[cur].(status := Ready)];
      SwitchOk(m', InsertOrdered(ready, cur, m', ByPriority), sleep, d, cur, idle, initial, nextTid)
  {
    EnqueueKeepsReady(m, ready, cur, idle);
    InsertOrderedKeys(ready, cur, m, m[cur := m[cur].(status := Ready)], ByPriority);
  }

  /** The state thread_yield leaves from records `m`, ready list `r` and
      destruction list `d` with `cur` running. */
  ghost predicate Yielded(m: map<Tid, ThreadRec>, r: seq<Tid>, d: seq<Tid>, cur: Tid, idle: Tid, initial: Tid,
                          m': map<Tid, ThreadRec>, r': seq<Tid>, d': seq<Tid>, running': Tid, ticks': nat)
    requires cur in m && cur !in d
    ensures Yielded(m, r, d, cur, idle, initial, m', r', d', running', ticks') ==>
      && d' == [] && m'.Keys == Freed(m, d).Keys && running' in m' && m'[running'].status == Running
  {
    var f := Freed(m, d);
    var queued := if cur != idle then InsertOrdered(r, cur, m, ByPriority) else r;
    Switched(f[cur := m[cur].(status := Ready)], queued, [], cur, idle, initial, m', r', d', running', ticks')
  }

  /** A thread that yields keeps the CPU exactly when it outranks the front of
      the ready list: among equal priorities it goes behind the others. */
  lemma YieldKeepsCpuIff(m: map<Tid, ThreadRec>, ready: seq<Tid>, cur: Tid, idle: Tid)
    requires cur != idle && cur !in ready && cur in m
    requires forall t :: t in ready ==> t in m
    ensures NextOf(InsertOrdered(ready, cur, m, ByPriority), idle) == cur
            <==> ready == [] || m[ready[0]].priority < m[cur].priority
  {
    if ready != [] {
      assert ready[0] in ready;
    }
  }

  /** thread_ticks after one more tick: the unsigned counter wraps at 2^32. */
  function TickCount(ticks: nat): (t: nat)
    ensures t < TICKS_WRAP
    ensures ticks + 1 < TICKS_WRAP ==> t == ticks + 1
  {
    (ticks + 1) % TICKS_WRAP
  }

  /** thread_ticks after `n` ticks from `start`. */
  function TicksAfter(start: nat, n: nat): (t: nat)
    ensures n > 0 ==> t < TICKS_WRAP
  {
    if n == 0 then start else TickCount(TicksAfter(start, n - 1))
  }

  /** A slice that schedule has just started counts its ticks exactly, so the
      tick handler first asks for a yield on the TIME_SLICE-th tick. */
  lemma {:induction false} FreshSliceCounts(n: nat)
    requires n + 1 < TICKS_WRAP
    ensures TicksAfter(0, n) == n
    ensures TickCount(TicksAfter(0, n)) >= TIME_SLICE <==> n + 1 >= TIME_SLICE
  {
    if n > 0 {
      FreshSliceCounts(n - 1);
    }
  }

  /** The priority of the donor at the front of `cur`'s donations, if any. */
  function FrontDonor(m: map<Tid, ThreadRec>, cur: Tid): (d: Option<int>)
    requires cur in m && (m[cur].donations != [] ==> m[cur].donations[0] in m)
    ensures d.None? <==> m[cur].donations == []
    ensures d.Some? ==> d.value == m[m[cur].donations[0]].priority
  {
    if m[cur].donations == [] then None else Some(m[m[cur].donations[0]].priority)
  }

  /** The records after thread_set_priority(p) has updated the running thread:
      base priority `p`, effective priority the larger of `p` and the front
      donor's. */
  function Reprioritized(m: map<Tid, ThreadRec>, cur: Tid, p: int): (r: map<Tid, ThreadRec>)
    requires cur in m && (m[cur].donations != [] ==> m[cur].donations[0] in m)
    ensures r.Keys == m.Keys
    ensures r[cur].oldPriority == p && r[cur].priority >= p
    ensures r[cur].status == m[cur].status && r[cur].donations == m[cur].donations
    ensures forall t :: t in m && t != cur ==> r[t] == m[t]
  {
    m[cur := m[cur].(oldPriority := p, priority := EffectivePriority(p, FrontDonor(m, cur)))]
  }

  /** Setting the running thread's priorities keeps the invariant: the running
      thread is on no list, and the effective priority is at least the base
      one and equals it without donors. */
  lemma SetPriorityKeepsValid(m: map<Tid, ThreadRec>, ready: seq<Tid>, sleep: seq<Tid>, d: seq<Tid>,
                              cur: Tid, idle: Tid, initial: Tid, nextTid: Tid, ticks: nat, p: int)
    requires Inv(m, ready, sleep, d, cur, idle, initial, nextTid, ticks)
    requires m[cur].donations != [] ==> m[cur].donations[0] in m
    ensures Inv(Reprioritized(m, cur, p), ready, sleep, d, cur, idle, initial, nextTid, ticks)
  {
    var m' := Reprioritized(m, cur, p);
    assert cur !in ready;
    ReadyFrame(m, ready, idle, cur, m'[cur]);
  }

  /** thread_set_priority's test: the front of the ready list outranks `cur`. */
  function Outranked(m: map<Tid, ThreadRec>, ready: seq<Tid>, cur: Tid): (b: bool)
    requires cur in m
    ensures b ==> ready != [] && ready[0] in m && ready[0] != cur
  {
    ready != [] && ready[0] in m && m[cur].priority < m[ready[0]].priority
  }

  /** A yield that hands the CPU to the front of the ready list when that
      thread outranks the yielding one, idle included. */
  lemma YieldToHigher(m: map<Tid, ThreadRec>, ready: seq<Tid>, cur: Tid, idle: Tid)
    requires ReadyQueueOk(m, ready, idle) && cur in m && cur !in ready
    requires Outranked(m, ready, cur)
    ensures NextOf(if cur != idle then InsertOrdered(ready, cur, m, ByPriority) else ready, idle) == ready[0]
    ensures ready[0] != cur
  {
    assert ready[0] in ready;
    if cur != idle {
      YieldKeepsCpuIff(m, ready, cur, idle);
      InsertOrderedFront(ready, cur, m, ByPriority);
    }
  }

  /** The sleep list may be reordered: it stays a list of distinct BLOCKED
      threads. */
  lemma SleepPermKeepsValid(m: map<Tid, ThreadRec>, ready: seq<Tid>, sleep: seq<Tid>, sleep': seq<Tid>, d: seq<Tid>,
                            cur: Tid, idle: Tid, initial: Tid, nextTid: Tid, ticks: nat)
    requires Inv(m, ready, sleep, d, cur, idle, initial, nextTid, ticks)
    requires multiset(sleep') == multiset(sleep)
    ensures Inv(m, ready, sleep', d, cur, idle, initial, nextTid, ticks)
  {
    forall t | t in sleep'
      ensures t in sleep
    {
      assert t in multiset(sleep');
    }
  }

  /** The front of the sleep list can be taken off: it is a BLOCKED thread,
      not idle, and no longer on the list. */
  lemma SleepPop(m: map<Tid, ThreadRec>, sleep: seq<Tid>, idle: Tid)
    requires SleepListOk(m, sleep, idle) && sleep != []
    ensures SleepListOk(m, sleep[1..], idle)
    ensures sleep[0] in m && m[sleep[0]].status == Blocked && sleep[0] != idle && sleep[0] !in sleep[1..]
  {
    var x := sleep[0];
    assert x in sleep;
    assert x in m && m[x].status == Blocked && x != idle;
    NoDupTail(sleep);
    assert forall t :: t in sleep[1..] ==> t in sleep;
  }

  lemma SleepPopKeepsValid(m: map<Tid, ThreadRec>, ready: seq<Tid>, sleep: seq<Tid>, d: seq<Tid>,
                           cur: Tid, idle: Tid, initial: Tid, nextTid: Tid, ticks: nat)
    requires Inv(m, ready, sleep, d, cur, idle, initial, nextTid, ticks) && sleep != []
    ensures Inv(m, ready, sleep[1..], d, cur, idle, initial, nextTid, ticks)
    ensures sleep[0] in m && m[sleep[0]].status == Blocked && sleep[0] != idle && sleep[0] !in sleep[1..]
  {
    SleepPop(m, sleep, idle);
  }

  /** The sleep list in the order thread_wakeup sorts it: distinct, known
      threads in order. */
  lemma WakeStart(m: map<Tid, ThreadRec>, sleep: seq<Tid>, idle: Tid, o: Order)
    requires SleepListOk(m, sleep, idle)
    ensures var s := Sort(sleep, m, o);
      && NoDup(s) && Sorted(s, m, o) && (forall t :: t in s ==> t in m)
      && MarkReady(m, s[..0]) == m
  {
    SortMembers(sleep, m, o);
    SortSorted(sleep, m, o);
  }

  class Scheduler {
    var threads: map<Tid, ThreadRec>   // the live thread records, by tid
    var ready: seq<Tid>                // ready_list
    var sleep: seq<Tid>                // sleep_list
    var destruction: seq<Tid>          // destruction_req
    var running: Tid                   // the thread on the CPU
    var nextTid: Tid                   // allocate_tid's next_tid
    var threadTicks: nat               // thread_ticks
    var idleTicks: nat
    var kernelTicks: nat
    var userTicks: nat
    const idle: Tid                    // idle_thread
    const initial: Tid                 // initial_thread

    ghost predicate Valid()
      reads this
    {
      Inv(threads, ready, sleep, destruction, running, idle, initial, nextTid, threadTicks)
    }

    /** The state once thread_init and thread_start have run: the boot code is
        the initial thread, tid 1, RUNNING; thread_start has created the idle
        thread, tid 2, which has run once and blocked. */
    constructor ()
      ensures Valid()
      ensures initial == FIRST_TID && running == initial && idle == FIRST_TID + 1
      ensures threads == map[initial := InitThread("main", PRI_DEFAULT).(status := Running, childList := [idle]),
                             idle := InitThread("idle", PRI_DEFAULT)]
      ensures ready == [] && sleep == [] && destruction == []
      ensures nextTid == FIRST_TID + 2
      ensures threadTicks == 0 && idleTicks == 0 && kernelTicks == 0 && userTicks == 0
    {
      initial := FIRST_TID;
      idle := FIRST_TID + 1;
      running := FIRST_TID;
      threads := map[FIRST_TID := InitThread("main", PRI_DEFAULT).(status := Running, childList := [FIRST_TID + 1]),
                     FIRST_TID + 1 := InitThread("idle", PRI_DEFAULT)];
      ready := [];
      sleep := [];
      destruction := [];
      nextTid := FIRST_TID + 2;
      threadTicks := 0;
      idleTicks := 0;
      kernelTicks := 0;
      userTicks := 0;
    }

    /** allocate_tid: hands out the counter and advances it, so a tid is never
        handed out twice and is never that of a live thread. */
    method AllocateTid() returns (tid: Tid)
      requires FIRST_TID <= nextTid && forall t :: t in threads ==> t < nextTid
      modifies this`nextTid
      ensures tid == old(nextTid) && nextTid == tid + 1 && tid >= FIRST_TID
      ensures tid !in threads && forall t :: t in threads ==> t < nextTid
    {
      tid := nextTid;
      nextTid := nextTid + 1;
    }

    /** next_thread_to_run: pops the front of the ready list, a thread of
        highest priority, or returns idle when the list is empty. */
    method NextThreadToRun() returns (next: Tid)
      modifies this`ready
      ensures next == NextOf(old(ready), idle)
      ensures ready == if old(ready) == [] then [] else old(ready)[1..]
      ensures old(ready) != [] && Sorted(old(ready), threads, ByPriority) ==>
                forall t :: t in old(ready) ==> Key(threads, ByPriority, next) <= Key(threads, ByPriority, t)
    {
      if ready == [] {
        next := idle;
      } else {
        if Sorted(ready, threads, ByPriority) {
          FrontIsLeast(ready, threads, ByPriority);
        }
        next := ready[0];
        ready := ready[1..];
      }
    }

    /** schedule: the front of the ready list (idle when it is empty) becomes
        RUNNING with a fresh time slice; on a switch away from a dying thread
        other than the initial one, that thread is queued for freeing, not
        freed. SwitchKeepsValid shows that this restores Valid() whenever the
        caller has left the scheduler in a SwitchOk state. */
    method Schedule()
      requires running in threads && threads[running].status != Running
      requires NextOf(ready, idle) in threads
      modifies this
      ensures Switched(old(threads), old(ready), old(destruction), old(running), idle, initial,
                       threads, ready, destruction, running, threadTicks)
      ensures sleep == old(sleep) && nextTid == old(nextTid)
      ensures idleTicks == old(idleTicks) && kernelTicks == old(kernelTicks) && userTicks == old(userTicks)
    {
      var cur := running;
      var next := NextThreadToRun();
      threads := threads[next := threads[next].(status := Running)];
      threadTicks := 0;
      if cur != next {
        if threads[cur].status == Dying && cur != initial {
          destruction := destruction + [cur];
        }
        running := next;
      }
    }

    /** thread_block: the running thread becomes BLOCKED and another is scheduled. */
    method ThreadBlock()
      requires Valid()
      modifies this
      ensures Valid()
      ensures var cur := old(running);
        Switched(old(threads)[cur := old(threads)[cur].(status := Blocked)], old(ready), old(destruction), cur,
                 idle, initial, threads, ready, destruction, running, threadTicks)
      ensures sleep == old(sleep) && nextTid == old(nextTid)
      ensures idleTicks == old(idleTicks) && kernelTicks == old(kernelTicks) && userTicks == old(userTicks)
    {
      BlockKeepsSwitchOk(threads, ready, sleep, destruction, running, idle, initial, nextTid, threadTicks);
      threads := threads[running := threads[running].(status := Blocked)];
      ghost var m, r, d := threads, ready, destruction;
      ghost var cur := running;
      Schedule();
      SwitchKeepsValid(m, r, sleep, d, cur, idle, initial, nextTid, threads, ready, destruction, running, threadTicks);
    }

    /** thread_unblock: a BLOCKED thread becomes READY and joins the ready list
        once, in priority order; nothing else changes, in particular the
        running thread keeps the CPU. */
    method ThreadUnblock(t: Tid)
      requires Valid()
      requires t in threads && threads[t].status == Blocked
      requires t != idle && t !in sleep
      modifies this
      ensures Valid()
      ensures threads == old(threads)[t := old(threads)[t].(status := Ready)]
      ensures ready == InsertOrdered(old(ready), t, old(threads), ByPriority)
      ensures multiset(ready)[t] == 1
      ensures running == old(running) && sleep == old(sleep) && destruction == old(destruction)
      ensures nextTid == old(nextTid) && threadTicks == old(threadTicks)
      ensures idleTicks == old(idleTicks) && kernelTicks == old(kernelTicks) && userTicks == old(userTicks)
    {
      EnqueueKeepsReady(threads, ready, t, idle);
      ready := InsertOrdered(ready, t, threads, ByPriority);
      threads := threads[t := threads[t].(status := Ready)];
    }

    /** do_schedule: frees the pages queued on the destruction list, gives the
        running thread status `st` and schedules. The thread being replaced is
        never on that list, so its own page survives this pass. */
    method DoSchedule(st: Status)
      requires DoScheduleOk(threads, ready, sleep, destruction, running, idle, initial, nextTid, st)
      modifies this
      ensures Valid()
      ensures var cur := old(running);
        var f := Freed(old(threads), old(destruction));
        Switched(f[cur := f[cur].(status := st)], old(ready), [], cur,
                 idle, initial, threads, ready, destruction, running, threadTicks)
      ensures sleep == old(sleep) && nextTid == old(nextTid)
      ensures idleTicks == old(idleTicks) && kernelTicks == old(kernelTicks) && userTicks == old(userTicks)
    {
      DrainKeepsSwitchOk(threads, ready, sleep, destruction, running, idle, initial, nextTid, st);
      ghost var m0, d0 := threads, destruction;
      ghost var freed: seq<Tid> := [];
      while destruction != []
        invariant d0 == freed + destruction
        invariant threads == Freed(m0, freed)
        invariant ready == old(ready) && sleep == old(sleep) && running == old(running)
        invariant nextTid == old(nextTid) && threadTicks == old(threadTicks)
        invariant idleTicks == old(idleTicks) && kernelTicks == old(kernelTicks) && userTicks == old(userTicks)
        decreases |destruction|
      {
        var victim := destruction[0];
        destruction := destruction[1..];
        FreedStep(m0, freed, victim);
        threads := map t | t in threads && t != victim :: threads[t];
        freed := freed + [victim];
      }
      assert freed == d0;
      threads := threads[running := threads[running].(status := st)];
      ghost var m, r, cur := threads, ready, running;
      Schedule();
      SwitchKeepsValid(m, r, sleep, [], cur, idle, initial, nextTid, threads, ready, destruction, running, threadTicks);
    }

    /** thread_yield: the running thread goes back on the ready list (idle
        never does) and the scheduler picks the front; see YieldKeepsCpuIff
        for when the yielding thread is picked again. */
    method ThreadYield()
      requires Valid()
      modifies this
      ensures Valid()
      ensures Yielded(old(threads), old(ready), old(destruction), old(running), idle, initial,
                      threads, ready, destruction, running, threadTicks)
      ensures sleep == old(sleep) && nextTid == old(nextTid)
      ensures idleTicks == old(idleTicks) && kernelTicks == old(kernelTicks) && userTicks == old(userTicks)
    {
      if running != idle {
        EnqueueKeepsReady(threads, ready, running, idle);
        ready := InsertOrdered(ready, running, threads, ByPriority);
      } else {
        ReadyFrame(threads, ready, idle, running, threads[running].(status := Ready));
      }
      DoSchedule(Ready);
    }

    /** thread_exit: the running thread, never idle, becomes DYING and is
        switched away from for good; its page is queued for the next pass of
        do_schedule unless it is the initial thread. */
    method ThreadExit()
      requires Valid() && running != idle
      modifies this
      ensures Valid()
      ensures var cur := old(running);
        var f := Freed(old(threads), old(destruction));
        Switched(f[cur := f[cur].(status := Dying)], old(ready), [], cur,
                 idle, initial, threads, ready, destruction, running, threadTicks)
      ensures running != old(running)
      ensures old(running) != initial ==> destruction == [old(running)]
      ensures sleep == old(sleep) && nextTid == old(nextTid)
      ensures idleTicks == old(idleTicks) && kernelTicks == old(kernelTicks) && userTicks == old(userTicks)
    {
      ReadyFrame(threads, ready, idle, running, threads[running].(status := Dying));
      DoSchedule(Dying);
    }

    /** The part of thread_create that admits the new thread: its record,
        made by init_thread, gets the next tid, turns READY and joins the ready
        list once, in priority order, and the tid is appended to the running
        thread's children. */
    method AdmitThread(name: string, priority: int) returns (tid: Tid)
      requires Valid()
      requires PRI_MIN <= priority <= PRI_MAX
      modifies this
      ensures Valid()
      ensures tid == old(nextTid) && nextTid == tid + 1 && tid !in old(threads)
      ensures var cur := running;
        var mA := old(threads)[tid := InitThread(name, priority).(status := Ready)];
        && cur in old(threads)
        && threads == mA[cur := mA[cur].(childList := mA[cur].childList + [tid])]
        && ready == InsertOrdered(old(ready), tid, mA, ByPriority)
        && multiset(ready)[tid] == 1
      ensures running == old(running) && sleep == old(sleep) && destruction == old(destruction)
      ensures threadTicks == old(threadTicks)
      ensures idleTicks == old(idleTicks) && kernelTicks == old(kernelTicks) && userTicks == old(userTicks)
    {
      var t := InitThread(name, priority);
      CreateKeepsValid(threads, ready, sleep, destruction, running, idle, initial, nextTid, threadTicks, t);
      tid := AllocateTid();
      t := t.(status := Ready);
      threads := threads[tid := t];
      ready := InsertOrdered(ready, tid, threads, ByPriority);
      var cur := running;
      threads := threads[cur := threads[cur].(childList := threads[cur].childList + [tid])];
    }

    /** The preempting step of thread_create: the running thread, not idle,
        turns READY, goes back on the ready list and schedule runs. */
    method Preempt()
      requires Valid() && running != idle
      modifies this
      ensures Valid()
      ensures var cur := old(running);
        var m := old(threads)[cur := old(threads)[cur].(status := Ready)];
        Switched(m, InsertOrdered(old(ready), cur, m, ByPriority), old(destruction), cur,
                 idle, initial, threads, ready, destruction, running, threadTicks)
      ensures sleep == old(sleep) && nextTid == old(nextTid)
      ensures idleTicks == old(idleTicks) && kernelTicks == old(kernelTicks) && userTicks == old(userTicks)
    {
      RequeueKeepsSwitchOk(threads, ready, sleep, destruction, running, idle, initial, nextTid, threadTicks);
      threads := threads[running := threads[running].(status := Ready)];
      ready := InsertOrdered(ready, running, threads, ByPriority);
      ghost var m, r, d := threads, ready, destruction;
      ghost var cur := running;
      InsertOrderedFront(r, cur, m, ByPriority);
      Schedule();
      SwitchKeepsValid(m, r, sleep, d, cur, idle, initial, nextTid, threads, ready, destruction, running, threadTicks);
    }

    /** thread_create, past the allocation of its page (`pageAvailable`
        says whether palloc_get_page found one): the new thread gets the next
        tid, joins the ready list READY and becomes the creator's last child;
        the creator gives up the CPU exactly when the new thread's priority is
        strictly higher than its own. */
    method ThreadCreate(name: string, priority: int, pageAvailable: bool) returns (tid: Tid)
      requires Valid() && running != idle
      requires PRI_MIN <= priority <= PRI_MAX
      modifies this
      ensures Valid()
      ensures !pageAvailable ==> tid == TID_ERROR && threads == old(threads) && ready == old(ready)
      ensures !pageAvailable ==> running == old(running) && destruction == old(destruction)
      ensures !pageAvailable ==> nextTid == old(nextTid) && threadTicks == old(threadTicks)
      ensures pageAvailable ==> tid == old(nextTid) && nextTid == tid + 1
      ensures pageAvailable ==>
        var cur := old(running);
        var mA := old(threads)[tid := InitThread(name, priority).(status := Ready)];
        var r1 := InsertOrdered(old(ready), tid, mA, ByPriority);
        var m1 := mA[cur := mA[cur].(childList := mA[cur].childList + [tid])];
        var m2 := m1[cur := m1[cur].(status := Ready)];
        if priority > old(threads)[cur].priority then
          Switched(m2, InsertOrdered(r1, cur, m2, ByPriority), old(destruction), cur,
                   idle, initial, threads, ready, destruction, running, threadTicks)
        else
          threads == m1 && ready == r1 && running == cur && destruction == old(destruction)
          && threadTicks == old(threadTicks)
      ensures sleep == old(sleep)
      ensures idleTicks == old(idleTicks) && kernelTicks == old(kernelTicks) && userTicks == old(userTicks)
    {
      if !pageAvailable {
        return TID_ERROR;
      }
      tid := AdmitThread(name, priority);
      if threads[tid].priority > threads[running].priority {
        Preempt();
      }
    }
    /** thread_get_priority: the running thread's effective priority, never
        below its base priority and equal to it without donors. */
    function GetPriority(): (p: int)
      reads this
      requires Valid()
      ensures p >= threads[running].oldPriority
      ensures threads[running].donations == [] ==> p == threads[running].oldPriority
    {
      threads[running].priority
    }

    /** thread_set_priority: the running thread gets base priority `p` and
        effective priority the larger of `p` and its front donor's; it yields
        exactly when it then ranks below the front of the ready list, and the
        yield hands the CPU to that thread. */
    method ThreadSetPriority(p: int) returns (yielded: bool)
      requires Valid()
      requires threads[running].donations != [] ==> threads[running].donations[0] in threads
      modifies this
      ensures Valid()
      ensures var cur := old(running);
        var m1 := Reprioritized(old(threads), cur, p);
        && (yielded <==> Outranked(m1, old(ready), cur))
        && (!yielded ==> threads == m1 && ready == old(ready) && running == cur
                         && destruction == old(destruction) && threadTicks == old(threadTicks))
        && (yielded ==> cur !in old(destruction)
                        && Yielded(m1, old(ready), old(destruction), cur, idle, initial,
                                   threads, ready, destruction, running, threadTicks)
                        && running == old(ready)[0] && running != cur)
      ensures old(running) in threads && threads[old(running)].oldPriority == p
      ensures threads[old(running)].priority == EffectivePriority(p, FrontDonor(old(threads), old(running)))
      ensures !yielded && old(threads)[old(running)].donations == [] ==> GetPriority() == p
      ensures sleep == old(sleep) && nextTid == old(nextTid)
      ensures idleTicks == old(idleTicks) && kernelTicks == old(kernelTicks) && userTicks == old(userTicks)
    {
      var cur := running;
      SetPriorityKeepsValid(threads, ready, sleep, destruction, cur, idle, initial, nextTid, threadTicks, p);
      var front := if threads[cur].donations == [] then None else Some(threads[threads[cur].donations[0]].priority);
      threads := threads[cur := threads[cur].(oldPriority := p, priority := EffectivePriority(p, front))];
      if ready != [] {
        assert ready[0] in ready;
      }
      if ready != [] && threads[cur].priority < threads[ready[0]].priority {
        ghost var m1, r1, d1 := threads, ready, destruction;
        assert cur !in d1 && cur !in r1;
        YieldToHigher(m1, r1, cur, idle);
        ThreadYield();
        yielded := true;
      } else {
        yielded := false;
      }
    }

    /** thread_tick: charges the tick to exactly one of the idle, user and
        kernel counters and advances the slice counter; the result is the
        request to yield on return from the interrupt. */
    method ThreadTick() returns (yieldOnReturn: bool)
      requires Valid()
      modifies this`idleTicks, this`kernelTicks, this`userTicks, this`threadTicks
      ensures Valid()
      ensures running == idle ==>
        idleTicks == old(idleTicks) + 1 && kernelTicks == old(kernelTicks) && userTicks == old(userTicks)
      ensures running != idle && threads[running].hasPageTable ==>
        userTicks == old(userTicks) + 1 && idleTicks == old(idleTicks) && kernelTicks == old(kernelTicks)
      ensures running != idle && !threads[running].hasPageTable ==>
        kernelTicks == old(kernelTicks) + 1 && idleTicks == old(idleTicks) && userTicks == old(userTicks)
      ensures threadTicks == TickCount(old(threadTicks))
      ensures yieldOnReturn <==> threadTicks >= TIME_SLICE
    {
      if running == idle {
        idleTicks := idleTicks + 1;
      } else if threads[running].hasPageTable {
        userTicks := userTicks + 1;
      } else {
        kernelTicks := kernelTicks + 1;
      }
      threadTicks := (threadTicks + 1) % TICKS_WRAP;
      yieldOnReturn := threadTicks >= TIME_SLICE;
    }

    /** thread_sleep, with the guard it evidently intends: the running thread,
        unless it is idle, records its wake-up tick, becomes BLOCKED, joins
        the sleep list once, in order `o`, and another thread is scheduled.
        The idle thread changes nothing. */
    method ThreadSleep(tick: int, o: Order)
      requires Valid()
      modifies this
      ensures Valid()
      ensures old(running) == idle ==>
        threads == old(threads) && ready == old(ready) && sleep == old(sleep) && running == old(running)
        && destruction == old(destruction) && threadTicks == old(threadTicks)
      ensures old(running) != idle ==>
        var cur := old(running);
        var m := old(threads)[cur := old(threads)[cur].(wakeupTick := tick, status := Blocked)];
        && sleep == InsertOrdered(old(sleep), cur, m, o)
        && multiset(sleep)[cur] == 1
        && Switched(m, old(ready), old(destruction), cur, idle, initial,
                    threads, ready, destruction, running, threadTicks)
      ensures nextTid == old(nextTid)
      ensures idleTicks == old(idleTicks) && kernelTicks == old(kernelTicks) && userTicks == old(userTicks)
    {
      if running != idle {
        SleepKeepsSwitchOk(threads, ready, sleep, destruction, running, idle, initial, nextTid, threadTicks, tick, o);
        threads := threads[running := threads[running].(wakeupTick := tick, status := Blocked)];
        sleep := InsertOrdered(sleep, running, threads, o);
        ghost var m, r, d := threads, ready, destruction;
        ghost var cur := running;
        Schedule();
        SwitchKeepsValid(m, r, sleep, d, cur, idle, initial, nextTid, threads, ready, destruction, running, threadTicks);
      }
    }

    /** One round of thread_wakeup's loop: the sleep list is sorted by `o`
        and its front, if due, is taken off and unblocked. */
    method WakeFront(now: int, o: Order) returns (woke: bool)
      requires Valid() && sleep != []
      modifies this
      ensures Valid()
      ensures var s := Sort(old(sleep), old(threads), o);
        && s != [] && s[0] in old(threads)
        && (woke <==> old(threads)[s[0]].wakeupTick <= now)
        && (woke ==> sleep == s[1..] && threads == old(threads)[s[0] := old(threads)[s[0]].(status := Ready)]
                     && ready == InsertOrdered(old(ready), s[0], old(threads), ByPriority))
        && (!woke ==> sleep == s && threads == old(threads) && ready == old(ready))
      ensures woke ==> |sleep| < |old(sleep)|
      ensures running == old(running) && destruction == old(destruction)
      ensures nextTid == old(nextTid) && threadTicks == old(threadTicks)
      ensures idleTicks == old(idleTicks) && kernelTicks == old(kernelTicks) && userTicks == old(userTicks)
    {
      SleepPermKeepsValid(threads, ready, sleep, Sort(sleep, threads, o), destruction,
                          running, idle, initial, nextTid, threadTicks);
      SortLength(sleep, threads, o);
      sleep := Sort(sleep, threads, o);
      var front := sleep[0];
      SleepPopKeepsValid(threads, ready, sleep, destruction, running, idle, initial, nextTid, threadTicks);
      if threads[front].wakeupTick <= now {
        sleep := sleep[1..];
        ThreadUnblock(front);
        woke := true;
      } else {
        woke := false;
      }
    }

    /** thread_wakeup(now): sorts the sleep list by `o` and unblocks its front
        while the front is due. The loop reaches exactly the state of Sweep. */
    method ThreadWakeup(now: int, o: Order)
      requires Valid()
      modifies this
      ensures Valid()
      ensures Queues(threads, ready, sleep) == Sweep(Queues(old(threads), old(ready), old(sleep)), now, o)
      ensures running == old(running) && destruction == old(destruction)
      ensures nextTid == old(nextTid) && threadTicks == old(threadTicks)
      ensures idleTicks == old(idleTicks) && kernelTicks == old(kernelTicks) && userTicks == old(userTicks)
    {
      ghost var m0, r0 := threads, ready;
      ghost var s0 := Sort(sleep, threads, o);
      WakeStart(threads, sleep, idle, o);
      ghost var i: nat := 0;
      while sleep != []
        invariant Valid()
        invariant i <= |s0|
        invariant threads == MarkReady(m0, s0[..i])
        invariant ready == InsertAll(r0, s0[..i], m0)
        invariant Sort(sleep, threads, o) == s0[i..]
        invariant forall j :: 0 <= j < i ==> s0[j] in m0 && m0[s0[j]].wakeupTick <= now
        invariant running == old(running) && destruction == old(destruction)
        invariant nextTid == old(nextTid) && threadTicks == old(threadTicks)
        invariant idleTicks == old(idleTicks) && kernelTicks == old(kernelTicks) && userTicks == old(userTicks)
        decreases |sleep|
      {
        WakeStep(m0, r0, s0, i, o);
        var woke := WakeFront(now, o);
        if !woke {
          DuePrefixExact(s0, m0, now, i);
          break;
        }
        i := i + 1;
      }
      if sleep == [] {
        DuePrefixExact(s0, m0, now, i);
      }
    }
  }
}
