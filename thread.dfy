/** The thread control block of the kernel's thread system, as a value.
    The scheduler keeps one record per live thread in an arena keyed by tid;
    the record's identity is its key, so `tid` itself is not a field. */
module Thread {

  /** Thread identifiers (tid_t). */
  type Tid = int

  // Priority bounds of threads/thread.h.
  const PRI_MIN: int := 0
  const PRI_DEFAULT: int := 31
  const PRI_MAX: int := 63

  /** The sentinel thread_create returns when no page is available. */
  const TID_ERROR: int := -1

  /** The canary init_thread stores in every record (is_thread checks it). */
  const THREAD_MAGIC: int := 0xcd6abf4b

  /** Timer ticks a thread may run before the tick handler asks it to yield. */
  const TIME_SLICE: nat := 4

  /** Size of the record's name buffer, terminating NUL included. */
  const NAME_SIZE: nat := 16

  datatype Status = Running | Ready | Blocked | Dying

  datatype Option<T> = None | Some(value: T)

  /** Locks belong to the synchronisation layer; a record only names the one it waits on. */
  type LockId = nat

  datatype ThreadRec = ThreadRec(
    status: Status,
    name: string,
    priority: int,            // effective priority
    oldPriority: int,         // base priority
    magic: int,
    waitOnLock: Option<LockId>,
    donations: seq<Tid>,      // donors, kept by the lock code with the highest priority first
    wakeupTick: int,
    childList: seq<Tid>,
    waitedChildren: seq<Tid>,
    exitStatus: int,
    hasPageTable: bool        // pml4 != NULL: the thread backs a user process
  )

  /** init_thread: a zero-filled page turned into a BLOCKED thread of the
      given priority. The name is copied with strlcpy into NAME_SIZE bytes. */
  function InitThread(name: string, priority: int): (r: ThreadRec)
    requires PRI_MIN <= priority <= PRI_MAX
    ensures r.status == Blocked
    ensures r.priority == priority && r.oldPriority == priority
    ensures r.magic == THREAD_MAGIC
    ensures r.waitOnLock == None && r.donations == []
    ensures r.childList == [] && r.waitedChildren == []
    ensures r.exitStatus == -1
    ensures r.wakeupTick == 0 && !r.hasPageTable
    ensures r.name <= name && |r.name| < NAME_SIZE
    ensures |name| < NAME_SIZE ==> r.name == name
    ensures |name| >= NAME_SIZE ==> r.name == name[..NAME_SIZE - 1]
  {
    var copied := if |name| < NAME_SIZE then name else name[..NAME_SIZE - 1];
    ThreadRec(Blocked, copied, priority, priority, THREAD_MAGIC, None, [], 0, [], [], -1, false)
  }

  /** The effective priority thread_set_priority computes from the new base
      priority and the priority of the donor at the front of `donations`
      (None when there are no donations): the larger of the two. */
  function EffectivePriority(base: int, frontDonor: Option<int>): (e: int)
    ensures e >= base
    ensures frontDonor.Some? ==> e >= frontDonor.value
    ensures e == base || frontDonor == Some(e)
  {
    match frontDonor
    case None => base
    case Some(d) => if d > base then d else base
  }

  /** The numeric values of the status enumeration of threads/thread.h. */
  function StatusCode(s: Status): (c: nat)
    ensures c <= 3
  {
    match s
    case Running => 0
    case Ready => 1
    case Blocked => 2
    case Dying => 3
  }

  /** The guard of thread_sleep as written: it compares the running thread's
      status code with the address of the idle thread's record. */
  function SleepGuardAsWritten(curStatus: Status, idleAddress: nat): (b: bool)
    ensures idleAddress > StatusCode(Dying) ==> b
  {
    StatusCode(curStatus) != idleAddress
  }

  /** The guard as written never excludes anything once the idle thread exists:
      the caller is RUNNING (code 0) and the idle record has a non-null address,
      so the guard holds even when the caller is the idle thread itself. */
  lemma SleepGuardAsWrittenAdmitsIdle(idleAddress: nat)
    requires idleAddress != 0
    ensures SleepGuardAsWritten(Running, idleAddress)
  {
  }
}
