# Fixed-priority thread scheduler of a Pintos-style kernel, in Dafny

This project models the thread scheduler of `threads/thread.c`. The scheduler
runs on one CPU with interrupts off, so every C function below is modelled as
one atomic step of a `Scheduler` object. The object owns:

- the thread records, a map from tid to `ThreadRec`;
- the ready list, kept in priority order with first-come-first-served ties;
- the sleep list of timed sleepers;
- the destruction list of dying threads whose pages wait to be freed;
- the running, idle and initial threads;
- the tid counter, the time-slice counter and the idle/kernel/user tick
  statistics.

A context switch is the assignment to `running`. Freeing a page is the removal
of its record from the map.

Files:

- `thread.dfy` (module `Thread`): the thread record, its constants, and
  `init_thread`. It also holds the effective-priority rule of
  `thread_set_priority` and the guard of `thread_sleep` as written.
- `ordered_list.dfy` (module `OrderedList`): `list_insert_ordered`,
  `list_sort` and `list_pop_front` on sequences of tids, with sort keys read
  from the records.
- `wakeup.dfy` (module `Wakeup`): the wake-up sweep of `thread_wakeup` as a
  function `Sweep` on (records, ready list, sleep list), with its properties.
- `scheduler.dfy` (module `Scheduler`): the invariant `Inv`, the transition
  lemmas that preserve it, and the class `Scheduler`, whose methods are the C
  functions.

The class invariant `Valid()` says the following:

- the ready list holds every READY thread other than idle exactly once, sorted
  by priority;
- the sleep list holds distinct BLOCKED threads;
- the destruction list holds at most one thread, and every DYING thread other
  than the initial and the running one is on it (an exited initial thread is
  never queued, because its page was not allocated by `thread_create`);
- exactly the running thread is RUNNING;
- every record carries the canary;
- every tid is below the counter;
- effective priority is never below base priority, and equals it when there
  are no donations.

Every public operation (`ThreadBlock`, `ThreadUnblock`, `ThreadYield`,
`ThreadExit`, `ThreadCreate`, `ThreadSetPriority`, `ThreadTick`, `ThreadSleep`
and `ThreadWakeup`) requires and keeps `Valid()`, and so do the steps
`AdmitThread`, `Preempt` and `WakeFront` they are built from. Each one states
its whole new state in terms of the old one. The internal steps
`AllocateTid`, `NextThreadToRun` and `Schedule` run inside those operations,
in states that are not yet valid; they state their effect without `Valid()`.
`DoSchedule` starts from the state `DoScheduleOk` describes and ends in a
valid state. Context switches go through the predicate `Switched`.

The ready-list comparator `__list_less_func` and the sleep-list comparator
`_list_less_func` are not defined in `threads/thread.c`:

- the ready order is taken to be higher priority first, with an inserted
  thread going after every thread of equal priority;
- the order used to insert into the sleep list, and the order `thread_wakeup`
  sorts the sleep list by, are parameters of type `Order`.

`ThreadWakeup` is proved to reach exactly the state `Sweep` computes. The
lemmas about `Sweep` then hold under either order. The "wakes exactly the due
threads" lemma holds under the wake-up-tick order only.

Three behaviours of the code need a word on how the model treats them:

- `thread_set_priority` consults only the donor at the front of `donations`,
  not every donor. The model does the same; the front is taken to be the
  donor of highest priority, which the lock code is expected to keep.
- `thread_wakeup` sorts the sleep list with the ready-list comparator.
  `ThreadWakeup` takes the sort order as a parameter: with `ByPriority` it
  behaves as written, with `ByWakeTick` as evidently intended.
- `thread_sleep`'s guard does not exclude the idle thread. `ThreadSleep`
  models the intended guard; the guard as written is `SleepGuardAsWritten`.

The last two are listed under Findings below.

`include/threads/thread.h` is not part of this model. The constants `PRI_MIN`
(0), `PRI_DEFAULT` (31), `PRI_MAX` (63), `TID_ERROR` (-1), the status codes and
the name length (16) are those of the standard Pintos header. The record's
fields are the ones `threads/thread.c` reads and writes: besides the standard
ones, this variant's `old_priority`, `donations`, `wait_on_lock`,
`wakeup_tick`, `child_list`, `waited_children` and `exit_status`.

## Model

| member | source | states |
|---|---|---|
| `Thread.InitThread` | threads/thread.c:482-503 | The new record is BLOCKED. Its base and effective priority are the requested one. It carries the canary, has no lock, donations or children, and has exit status -1. The name is the requested one when it is shorter than 16 characters, and exactly its first 15 characters otherwise. |
| `Thread.EffectivePriority` | threads/thread.c:377-390 | The effective priority is at least the new base priority and at least the front donor's. It equals one of the two. |
| `Thread.SleepGuardAsWritten` | threads/thread.c:687 | The guard as written compares a status code with the idle thread's address. Once that address lies beyond the four status codes, the guard holds whatever the caller's status. |
| `Thread.SleepGuardAsWrittenAdmitsIdle` | threads/thread.c:687 | The guard as written compares a status code with an address. It holds for a RUNNING caller once the idle thread exists, including for the idle thread itself. |
| `OrderedList.InsertOrdered` | threads/thread.c:304 | Insertion adds exactly the new element: the result is the old list plus it, as a multiset. |
| `OrderedList.InsertPos` | threads/thread.c:304 | Where `list_insert_ordered` stops: a position within the list, at most its length. |
| `OrderedList.InsertPosFirstGreater` | threads/thread.c:304 | The insertion point is the first element whose key is strictly greater than the new element's. |
| `OrderedList.InsertOrderedAt` | threads/thread.c:304 | Insertion splices the element in at that point. Every other element keeps its order. |
| `OrderedList.InsertOrderedSorted` | threads/thread.c:304 | Inserting into a sorted list keeps it sorted. |
| `OrderedList.InsertOrderedAfterEquals` | threads/thread.c:304 | In a sorted list, the new element goes after exactly the elements whose key is at most its own. Among equal priorities this is first come, first served. |
| `OrderedList.InsertFresh` | threads/thread.c:304 | Inserting an element that is not on a duplicate-free list keeps the list duplicate-free, and adds exactly that element. |
| `OrderedList.InsertOrderedAtEnd` | threads/thread.c:304 | An element whose key is at least every key in the list goes at the end. |
| `OrderedList.Sort` | threads/thread.c:702 | Sorting permutes the list. |
| `OrderedList.SortSorted` | threads/thread.c:702 | The sorted list is in key order. |
| `OrderedList.SortOfSorted` | threads/thread.c:702 | Sorting a list that is already in order changes nothing. This is the stability that later rounds of the wake-up loop rely on. |
| `OrderedList.FrontIsLeast` | threads/thread.c:511-516 | The front of a sorted ready list has maximum priority. |
| `OrderedList.PopFront` | threads/thread.c:515 | Popping the front leaves a sorted, duplicate-free list without the front. |
| `Wakeup.MarkReady` | threads/thread.c:305 | The records after the status write of `thread_unblock` for each woken thread: the same tids, every woken record READY and otherwise unchanged, every other record unchanged. |
| `Wakeup.InsertAll` | threads/thread.c:701-710 | Unblocking the threads of a sequence one after the other adds exactly those threads to the ready list. |
| `Wakeup.DuePrefix` | threads/thread.c:704-708 | The loop's stop rule: the number of fronts woken is at most the list's length, and (with `DuePrefixDue`) it is the length of the run of due threads at the front. |
| `Wakeup.Settle` | threads/thread.c:703-709 | The loop run on a list that is already in order: the records keep their tids, what stays asleep is a suffix of the list, and the ready list grows by the number of threads taken off. |
| `Wakeup.Sweep` | threads/thread.c:696-712 | The effect of `thread_wakeup`: no record is added or dropped, the sleep list never grows, and the ready list grows by exactly as many threads as the sleep list loses (`SweepConserves` states the same of the lists' contents). |
| `Wakeup.DuePrefixDue` | threads/thread.c:703-710 | Every thread of the due prefix has wake-up tick at most `now`. The thread after the prefix, if any, is not due: the loop stops there. |
| `Wakeup.DuePrefixExact` | threads/thread.c:703-710 | Due threads up to the end of the list, or up to the first thread that is not due, make up the due prefix. |
| `Wakeup.InsertAllSorted` | threads/thread.c:304 | A run of ordered insertions keeps the ready list sorted. |
| `Wakeup.WakeStep` | threads/thread.c:701-709 | One round of the loop unblocks the front and inserts it into the ready list. The rest stays in order under the new records, so the next sort changes nothing. |
| `Wakeup.SweepConserves` | threads/thread.c:696-712 | The sweep moves threads from the sleep list to the ready list and nowhere else. The set of tids in the arena does not change. |
| `Wakeup.SweepKeepsReadySorted` | threads/thread.c:696-712 | The sweep keeps the ready list in priority order. |
| `Wakeup.SweepKeepsOthers` | threads/thread.c:696-712 | Threads that were not asleep keep their records. |
| `Wakeup.SweepWakesOnlyDue` | threads/thread.c:703-706 | Every thread taken off the sleep list was due. It is now READY and on the ready list, and the rest of its record is unchanged. |
| `Wakeup.SweepByWakeTickWakesExactlyDue` | threads/thread.c:701-710 | With the sleep list sorted by wake-up tick, a sleeper is woken if and only if its wake-up tick is at most `now`. |
| `Wakeup.SweepEqualPrioritiesAgree` | threads/thread.c:702 | When all sleepers share one priority and the list is in wake-up order, the sweep as written equals the one by wake-up tick. |
| `Wakeup.SweepByPriorityLeavesDueSleeper` | threads/thread.c:702 | A concrete state in which the sweep as written leaves a due sleeper asleep. |
| `Scheduler.NextOf` | threads/thread.c:511-516 | The thread `next_thread_to_run` picks is on the ready list, or is idle when the list is empty. |
| `Scheduler.QueuedForFree` | threads/thread.c:659-661 | The destruction list after a switch keeps its old entries and gains at most one: the outgoing thread, and only when it is DYING, is not the initial thread and is not the thread switched to. |
| `Scheduler.Switched` | threads/thread.c:641-666 | The state `schedule` leaves: the same tids, the new running thread RUNNING, and the ready list one shorter unless it was empty. |
| `Scheduler.Freed` | threads/thread.c:623-627 | The records left after the drain in `do_schedule`: no record is gained and every queued thread's record is gone (with `FreedStep`, exactly one record goes per page freed). |
| `Scheduler.Yielded` | threads/thread.c:368-371 | The state `thread_yield` leaves: the destruction list is empty, the tids are those left after the drain, and the new running thread is RUNNING. |
| `Scheduler.TicksAfter` | threads/thread.c:183 | The slice counter after `n` ticks: once it has ticked at all, below 2^32. |
| `Scheduler.FrontDonor` | threads/thread.c:381-382 | The front donor's priority when there are donations, and nothing otherwise. |
| `Scheduler.Reprioritized` | threads/thread.c:379-389 | `thread_set_priority`'s record update: the same tids, the running thread's base priority is the new one and its effective priority is not below it, its status and donations are kept, and every other record is unchanged. |
| `Scheduler.Outranked` | threads/thread.c:392 | The yield test: when it holds, the ready list is non-empty and its front is a live thread other than the caller. |
| `Scheduler.NoDoubleQueueing` | threads/thread.c:33-51 | In a valid state the ready, sleep and destruction lists are pairwise disjoint. Neither the running thread nor idle waits on the ready list. |
| `Scheduler.SwitchKeepsValid` | threads/thread.c:633-668 | Switching to the front of the ready list, or to idle when it is empty, restores the invariant. The chosen thread is the only RUNNING one, and a dying outgoing thread is queued, not freed. |
| `Scheduler.EnqueueKeepsReady` | threads/thread.c:296-307 | A thread that is not READY becomes READY and is on the ready list exactly once, and the list stays sorted. |
| `Scheduler.BlockKeepsSwitchOk` | threads/thread.c:280-285 | Blocking the running thread leaves a state that `schedule` can switch from. |
| `Scheduler.SleepKeepsSwitchOk` | threads/thread.c:683-692 | A sleeper other than idle is BLOCKED with its wake-up tick and on the sleep list exactly once. The state is one that `schedule` can switch from. |
| `Scheduler.FreedStep` | threads/thread.c:623-627 | Each round of the destruction loop frees exactly the popped thread's record. |
| `Scheduler.DrainKeepsSwitchOk` | threads/thread.c:620-629 | Once the destruction list is drained and the running thread's status is set, the state is one that `schedule` can switch from. The running thread's own record survives the drain. |
| `Scheduler.AdmitKeepsReady` | threads/thread.c:258-259 | A record that is not yet in the arena becomes READY and is on the ready list once, and the list stays sorted. |
| `Scheduler.CreateKeepsValid` | threads/thread.c:220-261 | Admitting a new thread under the next tid keeps the invariant. The new thread is on the ready list once. |
| `Scheduler.RequeueKeepsSwitchOk` | threads/thread.c:265-266 | The running thread, put back READY on the ready list, leaves a state that `schedule` can switch from. |
| `Scheduler.YieldKeepsCpuIff` | threads/thread.c:361-373 | A thread that yields is picked again if and only if the ready list is empty or its front has strictly lower priority than the yielding thread. |
| `Scheduler.TickCount` | threads/thread.c:60 | The unsigned slice counter stays below 2^32 and counts exactly while below it. |
| `Scheduler.FreshSliceCounts` | threads/thread.c:183-184 | After `schedule` resets the counter, the n-th tick leaves it at n. The tick handler first asks for a yield on the TIME_SLICE-th tick. |
| `Scheduler.SetPriorityKeepsValid` | threads/thread.c:377-390 | Setting the running thread's base and effective priority keeps the invariant. |
| `Scheduler.YieldToHigher` | threads/thread.c:392-395 | When the front of the ready list outranks the yielding thread, the yield hands the CPU to that front thread. |
| `Scheduler.SleepPermKeepsValid` | threads/thread.c:702 | Re-sorting the sleep list keeps the invariant. |
| `Scheduler.SleepPopKeepsValid` | threads/thread.c:703-706 | Taking the front off the sleep list keeps the invariant. The front is a BLOCKED thread other than idle. |
| `Scheduler.WakeStart` | threads/thread.c:702 | The sorted sleep list is duplicate-free and in order, and all its threads are known. |
| `Scheduler.Scheduler.constructor` | threads/thread.c:119-164 | The state after `thread_init` and `thread_start`: main is tid 1 and RUNNING, with idle (tid 2, BLOCKED) as its child. All lists are empty, the counter is at 3 and the ticks are zero. The state is valid. |
| `Scheduler.Scheduler.AllocateTid` | threads/thread.c:672-681 | Returns the counter and advances it by one. The result is at least 1 and is not the tid of any live thread. |
| `Scheduler.Scheduler.NextThreadToRun` | threads/thread.c:511-516 | Returns idle and leaves the ready list as it is when the list is empty. Otherwise it pops the front, a thread of maximum priority. |
| `Scheduler.Scheduler.Schedule` | threads/thread.c:633-668 | The front of the ready list, or idle, becomes RUNNING with a fresh slice. A switch away from a dying thread other than the initial one appends that thread to the destruction list. |
| `Scheduler.Scheduler.ThreadBlock` | threads/thread.c:280-285 | The running thread becomes BLOCKED and the scheduler switches. Validity is kept. |
| `Scheduler.Scheduler.ThreadUnblock` | threads/thread.c:296-307 | The thread becomes READY and is on the ready list exactly once, at its ordered place. Nothing else changes and there is no preemption. |
| `Scheduler.Scheduler.DoSchedule` | threads/thread.c:620-630 | Frees every queued page, then sets the running thread's status and switches. The destruction list is empty before selection. |
| `Scheduler.Scheduler.ThreadYield` | threads/thread.c:361-373 | The running thread goes back on the ready list, unless it is idle, and the scheduler switches through `do_schedule`. |
| `Scheduler.Scheduler.ThreadExit` | threads/thread.c:342-356 | The running thread becomes DYING and never runs again. Unless it is the initial thread, it is the only entry on the destruction list. |
| `Scheduler.Scheduler.AdmitThread` | threads/thread.c:220-261 | The new record gets the next tid, becomes READY, is on the ready list once in priority order, and is the creator's last child. |
| `Scheduler.Scheduler.Preempt` | threads/thread.c:264-268 | The creator becomes READY, goes back on the ready list and the scheduler switches. |
| `Scheduler.Scheduler.ThreadCreate` | threads/thread.c:210-271 | Without a page it returns TID_ERROR and changes nothing. Otherwise the new thread is admitted and its tid returned. The creator is requeued and rescheduled if and only if the new priority is strictly higher. |
| `Scheduler.Scheduler.GetPriority` | threads/thread.c:400-402 | The running thread's effective priority is at least its base priority, and equals it without donations. |
| `Scheduler.Scheduler.ThreadSetPriority` | threads/thread.c:377-396 | Base priority becomes p, and effective priority the larger of p and the front donor's. The caller yields if and only if the front of the ready list then outranks it, and the yield goes to that thread. Without donations and without a yield, `GetPriority()` returns p. |
| `Scheduler.Scheduler.ThreadTick` | threads/thread.c:169-185 | Exactly one of the idle, user and kernel counters goes up by one. The slice counter advances modulo 2^32, and a yield is requested if and only if it reaches TIME_SLICE. |
| `Scheduler.Scheduler.ThreadSleep` | threads/thread.c:683-694 | A caller other than idle records its wake-up tick, becomes BLOCKED and is on the sleep list once, and the scheduler switches. The idle thread changes nothing. |
| `Scheduler.Scheduler.WakeFront` | threads/thread.c:702-710 | Sorts the sleep list. It wakes the front if and only if the front is due; otherwise it leaves the sorted list. |
| `Scheduler.Scheduler.ThreadWakeup` | threads/thread.c:696-712 | The loop ends, including on an empty list. It reaches exactly the state `Sweep` computes, and validity is kept. |

## Left out

- `thread_launch`, `do_iret` and the GDT set-up (threads/thread.c:99-131, 519-613): register save and restore in inline assembly. A switch is the assignment `running := next`.
- `palloc_get_page` and `palloc_free_page`: page allocation is the `pageAvailable` parameter of `ThreadCreate`, and freeing a page is removing its record.
- The file-descriptor table page and the interrupt-frame set-up in `thread_create` (threads/thread.c:223-247): these belong to the process layer and the CPU.
- `process_activate` and `process_exit`: the process layer is not part of this model. A record's `hasPageTable` stands for `pml4 != NULL`.
- Interrupt levels, `intr_context` and the tick interrupt itself: each method is one atomic step. `intr_yield_on_return` is `ThreadTick`'s result.
- `tid_lock` in `allocate_tid`: concurrency. The increment is atomic here.
- The `sema_up`/`sema_down` handshake of `thread_start` and the idle loop's `sti; hlt`: the constructor is the state after the handshake.
- `thread_name`, `thread_tid` and `thread_current`: accessors. `thread_current`'s checks (the canary, RUNNING) are part of the invariant.
- `thread_print_stats`: output.
- The MLFQS stubs `thread_set_nice`, `thread_get_nice`, `thread_get_load_avg` and `thread_get_recent_cpu`: they do nothing.
- The two statements after `do_schedule` in `thread_exit` (threads/thread.c:353-354): unreachable, because `do_schedule` does not return from a switch away from a dying thread.
- Donations: they are kept by the lock code, which is not part of this model. `donations` is abstract state whose front is taken to be the donor of highest priority.
- `Thread.InitThread`: `strlcpy` counts bytes and the model counts characters, so a name with multi-byte characters is cut at a different place.
- The bodies of `__list_less_func` and `_list_less_func`: not in the source. The ready order is assumed, and the sleep orders are parameters.
- `Scheduler.Scheduler.ThreadSetPriority`: with an empty ready list the C code reads the list's end sentinel as a thread. The model treats that case as no yield.
- `Scheduler.Scheduler.ThreadSetPriority`: requires the front donor, if any, to be a live record, since the C code dereferences it.
- `Scheduler.Scheduler.ThreadTick`: the `long long` statistics are unbounded naturals. Their overflow after 2^63 ticks is not modelled.
- `Scheduler.Scheduler.AllocateTid`: the `int` counter is unbounded. Wrap-around after 2^31 tids is not modelled.
- `Scheduler.Scheduler.ThreadSleep`: the `int64_t` wake-up tick is an unbounded integer.
- `Scheduler.Scheduler.ThreadUnblock`: requires that the thread is not idle and not on the sleep list; `thread_unblock` asserts neither. Its list element is shared between the ready and sleep lists, so a thread on both would corrupt them, and the idle thread never joins the ready list. The one caller here, `thread_wakeup`, removes the thread from the sleep list first, and idle never sleeps in the model.
- `OrderedList.InsertOrdered` and `OrderedList.Sort`: `list_insert_ordered`, `list_sort` and `list_pop_front` live in Pintos's `lib/kernel/list.c`, which is not part of this model. Two facts about them are assumptions: insertion goes in front of the first element the comparator places after the new one, and `list_sort` is stable. `SortOfSorted` and the re-sort in each round of `ThreadWakeup`'s loop rely on both.
- `Scheduler.Scheduler.ThreadCreate` and `Scheduler.Scheduler.ThreadExit`: both require that the caller is not idle, because the idle thread only ever blocks.

## Findings

| source | as written | input that shows it | evidently intended | confidence | as-written member | corrected member |
|---|---|---|---|---|---|---|
| threads/thread.c:687 | `t->status != idle_thread` compares the caller's status code with the idle thread's address | the idle thread calls `thread_sleep`: its status is RUNNING (code 0) and `idle_thread` is non-null, so the guard holds and idle blocks on the sleep list | the sleeper is not the idle thread (`t != idle_thread`) | not executed; high | `Thread.SleepGuardAsWrittenAdmitsIdle` | `Scheduler.Scheduler.ThreadSleep` |
| threads/thread.c:702 | the sleep list is sorted with the ready-list comparator (by priority) before the due check | sleepers 1 (priority 40, due at tick 10) and 2 (priority 20, due at tick 1), now = 5: thread 1 is sorted to the front, the loop stops there, and thread 2 stays asleep | the sleep list is sorted by wake-up tick, so every due sleeper is woken | not executed; high | `Wakeup.SweepByPriorityLeavesDueSleeper` | `Wakeup.SweepByWakeTickWakesExactlyDue` |
