/** The wake-up sweep of thread_wakeup as a function of the state it touches:
    the thread records, the ready list and the sleep list. The sort key the
    sweep sorts the sleep list with is a parameter. */
module Wakeup {
  import opened Thread
  import opened OrderedList

  datatype Queues = Queues(threads: map<Tid, ThreadRec>, ready: seq<Tid>, sleep: seq<Tid>)

  ghost predicate SleepersKnown(q: Queues) {
    forall t :: t in q.sleep ==> t in q.threads
  }

  /** The length of the due prefix of `s`: the loop wakes fronts while their
      wake-up tick is at most `now` and stops at the first that is not due. */
  function DuePrefix(s: seq<Tid>, m: map<Tid, ThreadRec>, now: int): (k: nat)
    ensures k <= |s|
  {
    if s != [] && s[0] in m && m[s[0]].wakeupTick <= now then 1 + DuePrefix(s[1..], m, now) else 0
  }

  /** The records after the threads of `w` have been unblocked. */
  function MarkReady(m: map<Tid, ThreadRec>, w: seq<Tid>): (r: map<Tid, ThreadRec>)
    ensures r.Keys == m.Keys
    ensures forall t :: t in m && t in w ==> r[t] == m[t].(status := Ready)
    ensures forall t :: t in m && t !in w ==> r[t] == m[t]
  {
    map t | t in m :: if t in w then m[t].(status := Ready) else m[t]
  }

  /** The ready list after the threads of `w` have been inserted one after the
      other, each in priority order. */
  function InsertAll(ready: seq<Tid>, w: seq<Tid>, m: map<Tid, ThreadRec>): (r: seq<Tid>)
    ensures multiset(r) == multiset(ready) + multiset(w)
    decreases |w|
  {
    if w == [] then ready
    else
      assert w == [w[0]] + w[1..];
      InsertAll(InsertOrdered(ready, w[0], m, ByPriority), w[1..], m)
  }

  /** The sleep list `s`, already in order, with its due prefix taken off and
      unblocked in order; the rest stays asleep in the same order. */
  function Settle(q: Queues, s: seq<Tid>, now: int): (r: Queues)
    ensures r.threads.Keys == q.threads.Keys
    ensures |r.sleep| <= |s| && r.sleep == s[|s| - |r.sleep|..]
    ensures |r.ready| == |q.ready| + |s| - |r.sleep|
  {
    var k := DuePrefix(s, q.threads, now);
    assert |multiset(InsertAll(q.ready, s[..k], q.threads))| == |multiset(q.ready)| + |multiset(s[..k])|;
    Queues(MarkReady(q.threads, s[..k]), InsertAll(q.ready, s[..k], q.threads), s[k..])
  }

  /** thread_wakeup: the sleep list is sorted by `o` and settled. Unblocking
      changes only the status of the woken thread, never a sort key, which is
      why the later rounds of its loop (which sort again) find the list in
      order already; ThreadWakeup runs that loop and is proved to reach this
      state. */
  function Sweep(q: Queues, now: int, o: Order): (r: Queues)
    ensures r.threads.Keys == q.threads.Keys
    ensures |r.sleep| <= |q.sleep|
    ensures |r.ready| + |r.sleep| == |q.ready| + |q.sleep|
  {
    var s := Sort(q.sleep, q.threads, o);
    SortLength(q.sleep, q.threads, o);
    Settle(q, s, now)
  }

  /** The due prefix is due; the first thread after it is not. */
  lemma {:induction false} DuePrefixDue(s: seq<Tid>, m: map<Tid, ThreadRec>, now: int)
    ensures var k := DuePrefix(s, m, now);
      && (forall i :: 0 <= i < k ==> s[i] in m && m[s[i]].wakeupTick <= now)
      && (k < |s| && s[k] in m ==> m[s[k]].wakeupTick > now)
  {
    if s != [] && s[0] in m && m[s[0]].wakeupTick <= now {
      DuePrefixDue(s[1..], m, now);
      forall i | 1 <= i < DuePrefix(s, m, now)
        ensures s[i] in m && m[s[i]].wakeupTick <= now
      {
        assert s[i] == s[1..][i - 1];
      }
    }
  }

  /** Inserting into a list in priority order keeps it so. */
  lemma {:induction false} InsertAllSorted(ready: seq<Tid>, w: seq<Tid>, m: map<Tid, ThreadRec>)
    requires Sorted(ready, m, ByPriority)
    ensures Sorted(InsertAll(ready, w, m), m, ByPriority)
    decreases |w|
  {
    if w != [] {
      InsertOrderedSorted(ready, w[0], m, ByPriority);
      InsertAllSorted(InsertOrdered(ready, w[0], m, ByPriority), w[1..], m);
    }
  }

  lemma SortMembers(s: seq<Tid>, m: map<Tid, ThreadRec>, o: Order)
    ensures multiset(Sort(s, m, o)) == multiset(s)
    ensures forall t :: t in Sort(s, m, o) <==> t in s
  {
    var r := Sort(s, m, o);
    forall t
      ensures t in r <==> t in s
    {
      assert t in r <==> t in multiset(r);
      assert t in s <==> t in multiset(s);
    }
  }

  lemma SettleConserves(q: Queues, s: seq<Tid>, now: int)
    requires multiset(s) == multiset(q.sleep)
    ensures var r := Settle(q, s, now);
      && r.threads.Keys == q.threads.Keys
      && multiset(r.ready) + multiset(r.sleep) == multiset(q.ready) + multiset(q.sleep)
  {
    var k := DuePrefix(s, q.threads, now);
    assert s == s[..k] + s[k..];
  }

  lemma SettleKeepsOthers(q: Queues, s: seq<Tid>, now: int)
    requires forall t :: t in s <==> t in q.sleep
    ensures var r := Settle(q, s, now);
      forall t :: t in q.threads && t !in q.sleep ==> t in r.threads && r.threads[t] == q.threads[t]
  {
    var k := DuePrefix(s, q.threads, now);
    assert forall t :: t in s[..k] ==> t in s;
  }

  lemma SettleWakesOnlyDue(q: Queues, s: seq<Tid>, now: int, t: Tid)
    requires t in s && t !in Settle(q, s, now).sleep
    ensures var r := Settle(q, s, now);
      && t in q.threads && q.threads[t].wakeupTick <= now
      && t in r.ready && t in r.threads && r.threads[t] == q.threads[t].(status := Ready)
  {
    var m := q.threads;
    var k := DuePrefix(s, m, now);
    var r := Settle(q, s, now);
    DuePrefixDue(s, m, now);
    assert s == s[..k] + s[k..];
    assert t in s[..k];
    var i :| 0 <= i < k && s[i] == t;
    assert t in multiset(s[..k]);
    assert t in multiset(r.ready);
  }

  /** On a list in wake-up order, nothing past the due prefix is due. */
  lemma SortedRestNotDue(s: seq<Tid>, m: map<Tid, ThreadRec>, now: int, t: Tid)
    requires Sorted(s, m, ByWakeTick) && (forall u :: u in s ==> u in m)
    requires t in s[DuePrefix(s, m, now)..]
    ensures t in m && m[t].wakeupTick > now
  {
    var k := DuePrefix(s, m, now);
    DuePrefixDue(s, m, now);
    var i :| 0 <= i < |s[k..]| && s[k..][i] == t;
    assert s[k + i] == t;
    assert s[k] in s && t in s;
    assert Key(m, ByWakeTick, s[k]) <= Key(m, ByWakeTick, s[k + i]);
  }

  /** Every thread the sweep takes off the sleep list goes to the ready list:
      together the two lists hold the same threads before and after, and the
      arena keeps its tids. */
  lemma SweepConserves(q: Queues, now: int, o: Order)
    ensures var r := Sweep(q, now, o);
      && r.threads.Keys == q.threads.Keys
      && multiset(r.ready) + multiset(r.sleep) == multiset(q.ready) + multiset(q.sleep)
  {
    SettleConserves(q, Sort(q.sleep, q.threads, o), now);
  }

  /** The sweep keeps the ready list in priority order. */
  lemma SweepKeepsReadySorted(q: Queues, now: int, o: Order)
    requires Sorted(q.ready, q.threads, ByPriority)
    ensures Sorted(Sweep(q, now, o).ready, Sweep(q, now, o).threads, ByPriority)
  {
    var s := Sort(q.sleep, q.threads, o);
    var k := DuePrefix(s, q.threads, now);
    var r := Sweep(q, now, o);
    InsertAllSorted(q.ready, s[..k], q.threads);
    MarkReadyKeys(q.threads, s[..k], ByPriority);
    assert r.threads == MarkReady(q.threads, s[..k]);
    assert r.ready == InsertAll(q.ready, s[..k], q.threads);
    SortedFrame(r.ready, q.threads, r.threads, ByPriority);
  }

  /** The records of threads that were not asleep do not change. */
  lemma SweepKeepsOthers(q: Queues, now: int, o: Order)
    ensures var r := Sweep(q, now, o);
      forall t :: t in q.threads && t !in q.sleep ==> t in r.threads && r.threads[t] == q.threads[t]
  {
    SortMembers(q.sleep, q.threads, o);
    SettleKeepsOthers(q, Sort(q.sleep, q.threads, o), now);
  }

  /** Every thread the sweep wakes was due, and is READY in the ready list with
      the rest of its record unchanged. */
  lemma SweepWakesOnlyDue(q: Queues, now: int, o: Order)
    ensures var r := Sweep(q, now, o);
      forall t :: t in q.sleep && t !in r.sleep ==>
        && t in q.threads && q.threads[t].wakeupTick <= now
        && t in r.ready && t in r.threads && r.threads[t] == q.threads[t].(status := Ready)
  {
    var s := Sort(q.sleep, q.threads, o);
    SortMembers(q.sleep, q.threads, o);
    forall t | t in q.sleep && t !in Settle(q, s, now).sleep
      ensures var r := Settle(q, s, now);
        && t in q.threads && q.threads[t].wakeupTick <= now
        && t in r.ready && t in r.threads && r.threads[t] == q.threads[t].(status := Ready)
    {
      SettleWakesOnlyDue(q, s, now, t);
    }
  }

  /** With the wake-up-tick key, a sleeper leaves the sleep list exactly when
      its wake-up tick is at most `now`. */
  lemma SweepByWakeTickWakesExactlyDue(q: Queues, now: int)
    requires SleepersKnown(q) && NoDup(q.sleep)
    ensures var r := Sweep(q, now, ByWakeTick);
      forall t :: t in q.sleep ==> (t !in r.sleep <==> q.threads[t].wakeupTick <= now)
  {
    var s := Sort(q.sleep, q.threads, ByWakeTick);
    SortMembers(q.sleep, q.threads, ByWakeTick);
    SortSorted(q.sleep, q.threads, ByWakeTick);
    SweepWakesOnlyDue(q, now, ByWakeTick);
    forall t | t in Settle(q, s, now).sleep
      ensures t in q.threads && q.threads[t].wakeupTick > now
    {
      SortedRestNotDue(s, q.threads, now, t);
    }
  }

  /** When all sleepers share one priority and the sleep list is in wake-up
      order, sorting it by priority changes nothing: the sweep with the ready
      list's comparator behaves exactly like the sweep by wake-up tick. */
  lemma SweepEqualPrioritiesAgree(q: Queues, now: int)
    requires Sorted(q.sleep, q.threads, ByWakeTick)
    requires forall t, u :: t in q.sleep && u in q.sleep ==> Key(q.threads, ByPriority, t) == Key(q.threads, ByPriority, u)
    ensures Sweep(q, now, ByPriority) == Sweep(q, now, ByWakeTick)
  {
    var m := q.threads;
    var s := q.sleep;
    assert Sorted(s, m, ByPriority) by {
      forall i, j | 0 <= i < j < |s|
        ensures Key(m, ByPriority, s[i]) <= Key(m, ByPriority, s[j])
      {
        assert s[i] in s && s[j] in s;
      }
    }
    SortOfSorted(s, m, ByPriority);
    SortOfSorted(s, m, ByWakeTick);
  }

  /** A sleeper record for the example below. */
  function SleeperRec(priority: int, wakeupTick: int): ThreadRec
    requires PRI_MIN <= priority <= PRI_MAX
  {
    InitThread("sleeper", priority).(wakeupTick := wakeupTick)
  }

  /** Sorting the sleep list by priority, as thread_wakeup does with the ready
      list's comparator, can leave a due thread asleep: thread 2 (priority 20)
      is due at tick 1, but at tick 5 the sweep stops at thread 1 (priority 40,
      due at tick 10), which the priority sort puts first. */
  lemma SweepByPriorityLeavesDueSleeper()
    ensures var m := map[1 := SleeperRec(40, 10), 2 := SleeperRec(20, 1)];
            var r := Sweep(Queues(m, [], [2, 1]), 5, ByPriority);
            2 in r.sleep && m[2].wakeupTick <= 5
  {
    var m := map[1 := SleeperRec(40, 10), 2 := SleeperRec(20, 1)];
    assert Key(m, ByPriority, 1) < Key(m, ByPriority, 2);
    assert [2, 1][..1] == [2];
    assert Sort([2], m, ByPriority) == [2];
    assert Sort([2, 1], m, ByPriority) == [1, 2];
    assert DuePrefix([1, 2], m, 5) == 0;
  }

  /** Unblocking changes statuses only, so no sort key moves. */
  lemma MarkReadyKeys(m: map<Tid, ThreadRec>, w: seq<Tid>, o: Order)
    ensures MarkReady(m, w).Keys == m.Keys
    ensures forall t :: Key(MarkReady(m, w), o, t) == Key(m, o, t)
  {
  }

  /** Unblocking one more thread, not yet unblocked, changes exactly its status. */
  lemma MarkReadySnoc(m: map<Tid, ThreadRec>, w: seq<Tid>, x: Tid)
    requires x in m && x !in w
    ensures x in MarkReady(m, w) && MarkReady(m, w)[x] == m[x]
    ensures MarkReady(m, w + [x]) == MarkReady(m, w)[x := m[x].(status := Ready)]
  {
    assert forall t :: t in w + [x] <==> t in w || t == x;
  }

  /** Inserting one more thread comes last. */
  lemma {:induction false} InsertAllSnoc(ready: seq<Tid>, w: seq<Tid>, x: Tid, m: map<Tid, ThreadRec>)
    ensures InsertAll(ready, w + [x], m) == InsertOrdered(InsertAll(ready, w, m), x, m, ByPriority)
    decreases |w|
  {
    if w != [] {
      assert (w + [x])[1..] == w[1..] + [x];
      InsertAllSnoc(InsertOrdered(ready, w[0], m, ByPriority), w[1..], x, m);
    }
  }

  /** A prefix of due threads followed by the end of the list or by a thread
      that is not due is the due prefix. */
  lemma {:induction false} DuePrefixExact(s: seq<Tid>, m: map<Tid, ThreadRec>, now: int, i: nat)
    requires i <= |s|
    requires forall j :: 0 <= j < i ==> s[j] in m && m[s[j]].wakeupTick <= now
    requires i < |s| ==> s[i] in m && m[s[i]].wakeupTick > now
    ensures DuePrefix(s, m, now) == i
  {
    if i > 0 {
      assert s[0] in m && m[s[0]].wakeupTick <= now;
      forall j | 0 <= j < i - 1
        ensures s[1..][j] in m && m[s[1..][j]].wakeupTick <= now
      {
        assert s[1..][j] == s[j + 1];
      }
      DuePrefixExact(s[1..], m, now, i - 1);
    }
  }

  /** One round of thread_wakeup's loop on a list already in order: the front
      `s[i]` is unblocked and inserted, and the rest stays in order under the
      new records, so sorting it again changes nothing. */
  lemma WakeStep(m: map<Tid, ThreadRec>, ready: seq<Tid>, s: seq<Tid>, i: nat, o: Order)
    requires i < |s| && NoDup(s) && Sorted(s, m, o) && (forall t :: t in s ==> t in m)
    ensures var w, x := s[..i], s[i];
      && x in MarkReady(m, w) && MarkReady(m, w)[x] == m[x]
      && MarkReady(m, s[..i + 1]) == MarkReady(m, w)[x := m[x].(status := Ready)]
      && InsertAll(ready, s[..i + 1], m) == InsertOrdered(InsertAll(ready, w, m), x, MarkReady(m, w), ByPriority)
      && Sort(s[i + 1..], MarkReady(m, s[..i + 1]), o) == s[i + 1..]
  {
    var w, x := s[..i], s[i];
    assert s[..i + 1] == w + [x];
    assert x !in w by {
      assert s == w + [x] + s[i + 1..];
      assert multiset(s)[x] >= multiset(w)[x] + 1;
    }
    assert s[i] in s;
    MarkReadySnoc(m, w, x);
    InsertAllSnoc(ready, w, x, m);
    MarkReadyKeys(m, w, ByPriority);
    InsertOrderedKeys(InsertAll(ready, w, m), x, m, MarkReady(m, w), ByPriority);
    var m' := MarkReady(m, s[..i + 1]);
    SortedSuffix(s, m, o, i + 1);
    MarkReadyKeys(m, s[..i + 1], o);
    SortedFrame(s[i + 1..], m, m', o);
    SortOfSorted(s[i + 1..], m', o);
  }
}
