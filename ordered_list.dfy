/** The ordered-list operations the scheduler applies to lists of threads:
    list_insert_ordered, list_sort and list_pop_front, on sequences of tids.
    An order is a sort key read from the thread records; lists are kept in
    non-decreasing key order. */
module OrderedList {
  import opened Thread

  /** The two orders thread.c's lists are meant to follow: higher priority
      first (the ready list), earlier wake-up tick first (the sleep list). */
  datatype Order = ByPriority | ByWakeTick

  /** The sort key of thread `t` under order `o`. */
  function Key(m: map<Tid, ThreadRec>, o: Order, t: Tid): int {
    if t !in m then 0
    else match o
      case ByPriority => -m[t].priority
      case ByWakeTick => m[t].wakeupTick
  }

  ghost predicate Sorted(s: seq<Tid>, m: map<Tid, ThreadRec>, o: Order) {
    forall i, j :: 0 <= i < j < |s| ==> Key(m, o, s[i]) <= Key(m, o, s[j])
  }

  /** No tid occurs twice (a thread's list element can be in one place only). */
  ghost predicate NoDup(s: seq<Tid>) {
    forall x :: multiset(s)[x] <= 1
  }

  /** list_insert_ordered: `x` goes in front of the first element whose key is
      strictly greater than its own, so after every element of equal key. */
  function InsertOrdered(s: seq<Tid>, x: Tid, m: map<Tid, ThreadRec>, o: Order): (r: seq<Tid>)
    ensures multiset(r) == multiset(s) + multiset{x}
  {
    if s == [] then [x]
    else if Key(m, o, x) < Key(m, o, s[0]) then [x] + s
    else
      assert s == [s[0]] + s[1..];
      [s[0]] + InsertOrdered(s[1..], x, m, o)
  }

  /** The position list_insert_ordered stops at: the first element whose key
      exceeds that of `x`, or the end of the list. */
  function InsertPos(s: seq<Tid>, x: Tid, m: map<Tid, ThreadRec>, o: Order): (k: nat)
    ensures k <= |s|
  {
    if s == [] then 0
    else if Key(m, o, x) < Key(m, o, s[0]) then 0
    else 1 + InsertPos(s[1..], x, m, o)
  }

  /** InsertPos is the first position whose key exceeds that of `x`. */
  lemma {:induction false} InsertPosFirstGreater(s: seq<Tid>, x: Tid, m: map<Tid, ThreadRec>, o: Order)
    ensures var k := InsertPos(s, x, m, o);
      && (forall i :: 0 <= i < k ==> Key(m, o, s[i]) <= Key(m, o, x))
      && (k < |s| ==> Key(m, o, x) < Key(m, o, s[k]))
  {
    if s != [] && Key(m, o, x) >= Key(m, o, s[0]) {
      InsertPosFirstGreater(s[1..], x, m, o);
    }
  }

  /** Insertion splices `x` in at InsertPos and leaves every other element in place. */
  lemma {:induction false} InsertOrderedAt(s: seq<Tid>, x: Tid, m: map<Tid, ThreadRec>, o: Order)
    ensures InsertOrdered(s, x, m, o)
         == s[..InsertPos(s, x, m, o)] + [x] + s[InsertPos(s, x, m, o)..]
  {
    if s != [] && Key(m, o, x) >= Key(m, o, s[0]) {
      var t := s[1..];
      var k := InsertPos(t, x, m, o);
      InsertOrderedAt(t, x, m, o);
      assert InsertOrdered(s, x, m, o) == [s[0]] + InsertOrdered(t, x, m, o);
      assert InsertPos(s, x, m, o) == k + 1;
      SpliceAfterHead(s, x, k);
    } else {
      assert InsertPos(s, x, m, o) == 0;
    }
  }

  lemma SpliceAfterHead(s: seq<Tid>, x: Tid, k: nat)
    requires s != [] && k < |s|
    ensures [s[0]] + (s[1..][..k] + [x] + s[1..][k..]) == s[..k + 1] + [x] + s[k + 1..]
  {
    assert s[..k + 1] == [s[0]] + s[1..][..k];
    assert s[k + 1..] == s[1..][k..];
  }

  /** Inserting into a sorted list keeps it sorted. */
  lemma InsertOrderedSorted(s: seq<Tid>, x: Tid, m: map<Tid, ThreadRec>, o: Order)
    requires Sorted(s, m, o)
    ensures Sorted(InsertOrdered(s, x, m, o), m, o)
  {
    InsertOrderedAt(s, x, m, o);
    InsertPosFirstGreater(s, x, m, o);
    var k := InsertPos(s, x, m, o);
    var r := InsertOrdered(s, x, m, o);
    assert |r| == |s| + 1;
    forall i, j | 0 <= i < j < |r|
      ensures Key(m, o, r[i]) <= Key(m, o, r[j])
    {
      var a := if i < k then s[i] else if i == k then x else s[i - 1];
      var b := if j < k then s[j] else if j == k then x else s[j - 1];
      assert r[i] == a && r[j] == b;
      if i == k {
        assert Key(m, o, x) < Key(m, o, s[k]);
      }
    }
  }

  /** In a sorted list, the new element lands after exactly the elements whose
      key is at most its own: after all of equal key (first come, first served)
      and before all of greater key. */
  lemma InsertOrderedAfterEquals(s: seq<Tid>, x: Tid, m: map<Tid, ThreadRec>, o: Order)
    requires Sorted(s, m, o)
    ensures forall i :: 0 <= i < |s| ==>
              (i < InsertPos(s, x, m, o) <==> Key(m, o, s[i]) <= Key(m, o, x))
  {
    InsertPosFirstGreater(s, x, m, o);
    var k := InsertPos(s, x, m, o);
    forall i | 0 <= i < |s| && k <= i
      ensures Key(m, o, x) < Key(m, o, s[i])
    {
      assert Key(m, o, s[k]) <= Key(m, o, s[i]);
    }
  }

  /** list_sort, a stable sort: the elements are inserted one after the other,
      each after all earlier ones of equal key. */
  function Sort(s: seq<Tid>, m: map<Tid, ThreadRec>, o: Order): (r: seq<Tid>)
    ensures multiset(r) == multiset(s)
    decreases |s|
  {
    if s == [] then []
    else
      assert s == s[..|s| - 1] + [s[|s| - 1]];
      InsertOrdered(Sort(s[..|s| - 1], m, o), s[|s| - 1], m, o)
  }

  /** Sorting keeps the length. */
  lemma SortLength(s: seq<Tid>, m: map<Tid, ThreadRec>, o: Order)
    ensures |Sort(s, m, o)| == |s|
  {
    assert |multiset(Sort(s, m, o))| == |multiset(s)|;
  }

  lemma {:induction false} SortSorted(s: seq<Tid>, m: map<Tid, ThreadRec>, o: Order)
    ensures Sorted(Sort(s, m, o), m, o)
    decreases |s|
  {
    if s != [] {
      SortSorted(s[..|s| - 1], m, o);
      InsertOrderedSorted(Sort(s[..|s| - 1], m, o), s[|s| - 1], m, o);
    }
  }

  /** Sorting a list that is already in order leaves it as it is. */
  lemma {:induction false} SortOfSorted(s: seq<Tid>, m: map<Tid, ThreadRec>, o: Order)
    requires Sorted(s, m, o)
    ensures Sort(s, m, o) == s
    decreases |s|
  {
    if s != [] {
      var p, x := s[..|s| - 1], s[|s| - 1];
      assert s == p + [x];
      assert Sorted(p, m, o);
      SortOfSorted(p, m, o);
      assert forall i :: 0 <= i < |p| ==> Key(m, o, p[i]) <= Key(m, o, x) by {
        forall i | 0 <= i < |p| ensures Key(m, o, p[i]) <= Key(m, o, x) {
          assert p[i] == s[i];
        }
      }
      InsertOrderedAtEnd(p, x, m, o);
    }
  }

  /** An element whose key is at least every key in the list goes at its end. */
  lemma {:induction false} InsertOrderedAtEnd(s: seq<Tid>, x: Tid, m: map<Tid, ThreadRec>, o: Order)
    requires forall i :: 0 <= i < |s| ==> Key(m, o, s[i]) <= Key(m, o, x)
    ensures InsertOrdered(s, x, m, o) == s + [x]
  {
    if s != [] {
      assert Key(m, o, s[0]) <= Key(m, o, x);
      InsertOrderedAtEnd(s[1..], x, m, o);
      assert s == [s[0]] + s[1..];
    }
  }

  /** A sorted list is led by an element of least key: under ByPriority the
      front is a thread of maximum priority. */
  lemma FrontIsLeast(s: seq<Tid>, m: map<Tid, ThreadRec>, o: Order)
    requires Sorted(s, m, o) && s != []
    ensures forall t :: t in s ==> Key(m, o, s[0]) <= Key(m, o, t)
  {
    forall t | t in s
      ensures Key(m, o, s[0]) <= Key(m, o, t)
    {
      var j :| 0 <= j < |s| && s[j] == t;
      if j > 0 {
        assert Key(m, o, s[0]) <= Key(m, o, s[j]);
      }
    }
  }

  /** Sortedness only depends on the keys of the list's own elements. */
  lemma SortedFrame(s: seq<Tid>, m: map<Tid, ThreadRec>, m': map<Tid, ThreadRec>, o: Order)
    requires Sorted(s, m, o)
    requires forall t :: t in s ==> Key(m, o, t) == Key(m', o, t)
    ensures Sorted(s, m', o)
  {
    forall i, j | 0 <= i < j < |s|
      ensures Key(m', o, s[i]) <= Key(m', o, s[j])
    {
      assert s[i] in s && s[j] in s;
    }
  }

  /** Removing the front of a duplicate-free list keeps it so, and the front
      is no longer on it. */
  lemma NoDupTail(s: seq<Tid>)
    requires s != [] && NoDup(s)
    ensures NoDup(s[1..]) && s[0] !in s[1..]
    ensures multiset(s) == multiset{s[0]} + multiset(s[1..])
  {
    var x := s[0];
    assert multiset(s)[x] <= 1;
    assert s == [x] + s[1..];
    assert multiset(s)[x] == 1 + multiset(s[1..])[x];
    assert x !in multiset(s[1..]);
    forall y
      ensures multiset(s[1..])[y] <= 1
    {
      assert multiset(s)[y] >= multiset(s[1..])[y];
    }
  }

  /** Removing the front of a list keeps the rest sorted and duplicate-free. */
  lemma PopFront(s: seq<Tid>, m: map<Tid, ThreadRec>, o: Order)
    requires s != [] && NoDup(s) && Sorted(s, m, o)
    ensures NoDup(s[1..]) && Sorted(s[1..], m, o) && s[0] !in s[1..]
    ensures multiset(s) == multiset{s[0]} + multiset(s[1..])
  {
    NoDupTail(s);
    SortedSuffix(s, m, o, 1);
  }

  /** A suffix of a sorted list is sorted. */
  lemma SortedSuffix(s: seq<Tid>, m: map<Tid, ThreadRec>, o: Order, i: nat)
    requires Sorted(s, m, o) && i <= |s|
    ensures Sorted(s[i..], m, o)
  {
    forall a, b | 0 <= a < b < |s[i..]|
      ensures Key(m, o, s[i..][a]) <= Key(m, o, s[i..][b])
    {
      assert s[i..][a] == s[i + a] && s[i..][b] == s[i + b];
    }
  }

  /** Inserting a new element into a duplicate-free list keeps it so, and
      adds exactly that element. */
  lemma InsertFresh(s: seq<Tid>, x: Tid, m: map<Tid, ThreadRec>, o: Order)
    requires NoDup(s) && x !in s
    ensures NoDup(InsertOrdered(s, x, m, o))
    ensures forall y :: y in InsertOrdered(s, x, m, o) <==> y in s || y == x
  {
    var r := InsertOrdered(s, x, m, o);
    assert multiset(s)[x] == 0;
    forall y
      ensures multiset(r)[y] <= 1
      ensures y in r <==> y in s || y == x
    {
      assert y in r <==> y in multiset(r);
      assert y in s <==> y in multiset(s);
    }
  }

  /** Insertion only looks at keys: two record maps that agree on every key
      give the same result. */
  lemma {:induction false} InsertOrderedKeys(s: seq<Tid>, x: Tid, m: map<Tid, ThreadRec>, m': map<Tid, ThreadRec>, o: Order)
    requires forall t :: Key(m, o, t) == Key(m', o, t)
    ensures InsertOrdered(s, x, m, o) == InsertOrdered(s, x, m', o)
  {
    if s != [] && Key(m, o, x) >= Key(m, o, s[0]) {
      InsertOrderedKeys(s[1..], x, m, m', o);
    }
  }

  /** The front after an insertion is the new element or the old front. */
  lemma InsertOrderedFront(s: seq<Tid>, x: Tid, m: map<Tid, ThreadRec>, o: Order)
    ensures var r := InsertOrdered(s, x, m, o);
      r != [] && (r[0] == x || (s != [] && r[0] == s[0]))
  {
  }
}
