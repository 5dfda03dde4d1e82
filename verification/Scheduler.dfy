/** The round-robin scheduler and its blocking locks as a state machine over queues
    (kernel/sync/sync.c, kernel/interrupt/timer.c, kernel/syscall/sys_call.c).

    A lock is a semaphore whose initial value is 0; their code is the same.  One step is one timer
    interrupt, one pass of the loop in an acquire, or one release.  `T` identifies a thread. */
module Scheduler {
  import opened Common

  const SLICE := 20

  /** `initial` is the value the semaphore was created with.  `woken` holds the threads a release
      has made ready and that have not yet re-tested `value`; `holders` those past their acquire.
      The kernel stores neither set: they record where each thread is in the acquire code. */
  datatype Sync<T> = Sync(initial: nat, value: int, wait: seq<T>, woken: set<T>, holders: set<T>)

  datatype State<T> = State(ticks: nat, cur: T, ready: seq<T>, locks: seq<Sync<T>>)

  datatype Step = Tick | Acquire(k: nat) | Release(k: nat)

  // ----- One step -----

  /** yield_thread: the first ready thread runs next; the caller has already left the running role. */
  function Dispatch<T(==)>(s: State<T>): State<T>
    requires s.ready != []
  {
    s.(cur := s.ready[0], ready := s.ready[1..])
  }

  predicate Expires(ticks: nat) {
    (ticks + 1) % U32 % SLICE == 0
  }

  /** timer_handler: at the end of a slice the running thread goes to the tail of the ready ring. */
  function DoTick<T(==)>(s: State<T>): State<T> {
    var s1 := s.(ticks := (s.ticks + 1) % U32);
    if Expires(s.ticks) && s.ready != [] then Dispatch(s1.(ready := s.ready + [s.cur])) else s1
  }

  /** One pass of the loop in lock_acquire or sema_acquire: wait and yield, or take. */
  function DoAcquire<T(==)>(s: State<T>, k: nat): State<T>
    requires k < |s.locks| && s.ready != []
  {
    var l := s.locks[k];
    if l.value < 0 then
      Dispatch(s.(locks := s.locks[k := l.(wait := l.wait + [s.cur], woken := l.woken - {s.cur})]))
    else
      s.(locks := s.locks[k := l.(value := l.value - 1, woken := l.woken - {s.cur}, holders := l.holders + {s.cur})])
  }

  /** The first statement of lock_realse and sema_realse. */
  function CountUp<T(==)>(s: State<T>, k: nat): State<T>
    requires k < |s.locks|
  {
    var l := s.locks[k];
    s.(locks := s.locks[k := l.(value := l.value + 1, holders := l.holders - {s.cur})])
  }

  /** The longest waiter goes to the tail of the ready ring. */
  function WakeOne<T(==)>(s: State<T>, k: nat): State<T>
    requires k < |s.locks| && s.locks[k].wait != []
  {
    var l := s.locks[k];
    s.(ready := s.ready + [l.wait[0]],
       locks := s.locks[k := l.(wait := l.wait[1..], woken := l.woken + {l.wait[0]})])
  }

  /** lock_realse or sema_realse */
  function DoRelease<T(==)>(s: State<T>, k: nat): State<T>
    requires k < |s.locks| && (s.locks[k].value >= -1 ==> s.locks[k].wait != [])
  {
    var s1 := CountUp(s, k);
    if s1.locks[k].value >= 0 then WakeOne(s1, k) else s1
  }

  // ----- What threads do, and what the rings need -----

  /** What a thread's own code allows it to do next: one in an acquire loop re-tests that lock
      before anything else, no thread acquires a lock it holds, only holders release. */
  predicate Allowed<T(==)>(s: State<T>, step: Step) {
    match step
    case Tick => true
    case Acquire(k) =>
      && k < |s.locks| && s.cur !in s.locks[k].holders
      && forall j | 0 <= j < |s.locks| && j != k :: s.cur !in s.locks[j].woken
    case Release(k) =>
      && k < |s.locks| && s.cur in s.locks[k].holders
      && forall j | 0 <= j < |s.locks| :: s.cur !in s.locks[j].woken
  }

  /** What the pointer code needs: a thread that yields leaves two ready threads or more, and a
      release that wakes finds a waiter. */
  predicate RingsReady<T(==)>(s: State<T>, step: Step) {
    match step
    case Tick => true
    case Acquire(k) => k < |s.locks| && (s.locks[k].value < 0 ==> |s.ready| >= 2)
    case Release(k) => k < |s.locks| && (s.locks[k].value >= -1 ==> s.locks[k].wait != [])
  }

  predicate Enabled<T(==)>(s: State<T>, step: Step) {
    s.ready != [] && Allowed(s, step) && RingsReady(s, step)
  }

  function Do<T(==)>(s: State<T>, step: Step): State<T>
    requires Enabled(s, step)
  {
    match step
    case Tick => DoTick(s)
    case Acquire(k) => DoAcquire(s, k)
    case Release(k) => DoRelease(s, k)
  }

  predicate Switches<T(==)>(s: State<T>, step: Step) {
    match step
    case Tick => Expires(s.ticks)
    case Acquire(k) => k < |s.locks| && s.locks[k].value < 0
    case Release(_) => false
  }

  // ----- Runs -----

  predicate Legal<T(==)>(s: State<T>, steps: seq<Step>)
    decreases |steps|
  {
    steps == [] || (Enabled(s, steps[0]) && Legal(Do(s, steps[0]), steps[1..]))
  }

  function Run<T(==)>(s: State<T>, steps: seq<Step>): State<T>
    requires Legal(s, steps)
    decreases |steps|
  {
    if steps == [] then s else Run(Do(s, steps[0]), steps[1..])
  }

  lemma {:induction false} RunConcat<T>(s: State<T>, a: seq<Step>, b: seq<Step>)
    requires Legal(s, a) && Legal(Run(s, a), b)
    ensures Legal(s, a + b) && Run(s, a + b) == Run(Run(s, a), b)
    decreases |a|
  {
    if a == [] {
      assert a + b == b;
    } else {
      assert (a + b)[1..] == a[1..] + b;
      RunConcat(Do(s, a[0]), a[1..], b);
    }
  }

  // ----- Every thread is in one place -----

  ghost function Waits<T>(locks: seq<Sync<T>>, t: T): nat {
    if locks == [] then 0 else multiset(locks[0].wait)[t] + Waits(locks[1..], t)
  }

  /** In how many places `t` is: running, in the ready ring, in a wait ring. */
  ghost function Places<T>(s: State<T>, t: T): nat {
    (if s.cur == t then 1 else 0) + multiset(s.ready)[t] + Waits(s.locks, t)
  }

  lemma {:induction false} WaitsUpdate<T>(locks: seq<Sync<T>>, k: nat, l: Sync<T>, t: T)
    requires k < |locks|
    ensures Waits(locks[k := l], t) == Waits(locks, t) - multiset(locks[k].wait)[t] + multiset(l.wait)[t]
  {
    if k == 0 {
      assert locks[k := l][1..] == locks[1..];
    } else {
      assert locks[k := l][1..] == locks[1..][k - 1 := l];
      WaitsUpdate(locks[1..], k - 1, l, t);
    }
  }

  lemma CountHead<T>(q: seq<T>, t: T)
    requires q != []
    ensures multiset(q)[t] == (if q[0] == t then 1 else 0) + multiset(q[1..])[t]
  {
    assert q == [q[0]] + q[1..];
  }

  lemma DispatchMoves<T>(s: State<T>, t: T)
    requires s.ready != []
    ensures Places(Dispatch(s), t) == Places(s, t) - (if s.cur == t then 1 else 0)
  {
    CountHead(s.ready, t);
  }

  lemma AcquireKeepsThreads<T>(s: State<T>, k: nat, t: T)
    requires k < |s.locks| && s.ready != []
    ensures Places(DoAcquire(s, k), t) == Places(s, t)
  {
    var l := s.locks[k];
    if l.value < 0 {
      var l' := l.(wait := l.wait + [s.cur], woken := l.woken - {s.cur});
      WaitsUpdate(s.locks, k, l', t);
      DispatchMoves(s.(locks := s.locks[k := l']), t);
    } else {
      WaitsUpdate(s.locks, k, DoAcquire(s, k).locks[k], t);
    }
  }

  lemma ReleaseKeepsThreads<T>(s: State<T>, k: nat, t: T)
    requires k < |s.locks| && (s.locks[k].value >= -1 ==> s.locks[k].wait != [])
    ensures Places(DoRelease(s, k), t) == Places(s, t)
  {
    var s1 := CountUp(s, k);
    WaitsUpdate(s.locks, k, s1.locks[k], t);
    if s1.locks[k].value >= 0 {
      WaitsUpdate(s1.locks, k, WakeOne(s1, k).locks[k], t);
      CountHead(s.locks[k].wait, t);
    }
  }

  /** No step loses or duplicates a thread. */
  lemma StepKeepsThreads<T>(s: State<T>, step: Step, t: T)
    requires Enabled(s, step)
    ensures Places(Do(s, step), t) == Places(s, t)
  {
    match step
    case Tick =>
      DispatchMoves(s.(ticks := (s.ticks + 1) % U32, ready := s.ready + [s.cur]), t);
    case Acquire(k) => AcquireKeepsThreads(s, k, t);
    case Release(k) => ReleaseKeepsThreads(s, k, t);
  }

  ghost predicate Known<T>(s: State<T>, threads: set<T>) {
    && s.cur in threads
    && (forall t | t in s.ready :: t in threads)
    && (forall k, t | 0 <= k < |s.locks| && t in s.locks[k].wait :: t in threads)
  }

  /** Each of `threads` is in exactly one place, and no other thread is in any. */
  ghost predicate Placed<T>(s: State<T>, threads: set<T>) {
    Known(s, threads) && forall t | t in threads :: Places(s, t) == 1
  }

  lemma StepKeepsKnown<T>(s: State<T>, threads: set<T>, step: Step)
    requires Enabled(s, step) && Known(s, threads)
    ensures Known(Do(s, step), threads)
  {
    var s' := Do(s, step);
    if step.Release? && s'.ready != s.ready {
      assert s.locks[step.k].wait[0] in threads;
    }
    forall k, t | 0 <= k < |s'.locks| && t in s'.locks[k].wait ensures t in threads {
      assert t in s.locks[k].wait || t == s.cur;
    }
    assert forall t | t in s'.ready :: t in s.ready || t == s.cur || (step.Release? && t == s.locks[step.k].wait[0]);
  }

  lemma StepKeepsPlaced<T>(s: State<T>, threads: set<T>, step: Step)
    requires Enabled(s, step) && Placed(s, threads)
    ensures Placed(Do(s, step), threads)
  {
    StepKeepsKnown(s, threads, step);
    forall t | t in threads ensures Places(Do(s, step), t) == 1 {
      StepKeepsThreads(s, step, t);
    }
  }

  predicate Runnable<T(==)>(s: State<T>, t: T) {
    t == s.cur || t in s.ready
  }

  lemma WaiterNotRunnable<T>(s: State<T>, threads: set<T>, k: nat, t: T)
    requires Placed(s, threads) && k < |s.locks| && t in s.locks[k].wait
    ensures !Runnable(s, t)
  {
    WaitsCovers(s.locks, k, t);
    assert Places(s, t) == 1;
  }

  lemma {:induction false} WaitsCovers<T>(locks: seq<Sync<T>>, k: nat, t: T)
    requires k < |locks|
    ensures multiset(locks[k].wait)[t] <= Waits(locks, t)
  {
    if k > 0 {
      WaitsCovers(locks[1..], k - 1, t);
    }
  }

  // ----- Counters, and no lost wake-up -----

  /** The value counts the holders down from the initial value and stops at -1; while threads wait,
      there is a woken thread still to re-test for every unit the value allows. */
  ghost predicate LockInv<T>(s: State<T>, k: nat)
    requires k < |s.locks|
  {
    var l := s.locks[k];
    && l.value + |l.holders| == l.initial
    && l.value >= -1
    && (l.wait != [] ==> |l.woken| >= l.value + 1)
    && (forall t | t in l.woken :: Runnable(s, t))
  }

  ghost predicate Inv<T>(s: State<T>, threads: set<T>) {
    && s.ready != []
    && Placed(s, threads)
    && forall k | 0 <= k < |s.locks| :: LockInv(s, k)
  }

  /** Any number of threads and free semaphores, nobody in an acquire loop. */
  ghost predicate Start<T>(s: State<T>, threads: set<T>) {
    && s.ready != []
    && Placed(s, threads)
    && forall k | 0 <= k < |s.locks| :: s.locks[k] == Sync(s.locks[k].initial, s.locks[k].initial, [], {}, {})
  }

  lemma StartIsInv<T>(s: State<T>, threads: set<T>)
    requires Start(s, threads)
    ensures Inv(s, threads)
  {
  }

  /** init_thread's state, with the initial thread running, two others ready and one free lock, after
      any number of ticks. */
  lemma InitIsStart<T>(ticks: nat, idle: T, a: T, b: T)
    requires idle != a && idle != b && a != b
    ensures var s: State<T> := State(ticks, idle, [a, b], [Sync(0, 0, [], {}, {})]);
      Start(s, {idle, a, b}) && UnnestedInv(s, idle)
  {
    var s: State<T> := State(ticks, idle, [a, b], [Sync(0, 0, [], {}, {})]);
    assert s.locks[1..] == [];
    forall t | t in {idle, a, b} ensures Places(s, t) == 1 {
      assert multiset(s.ready) == multiset{a, b};
    }
  }

  lemma TickKeepsLockInv<T>(s: State<T>, j: nat)
    requires s.ready != [] && j < |s.locks| && LockInv(s, j)
    ensures LockInv(DoTick(s), j)
  {
    var q := s.ready + [s.cur];
    assert q == [q[0]] + q[1..];
    forall t | t in s.locks[j].woken ensures Runnable(DoTick(s), t) {
      assert Runnable(s, t) && t in q;
    }
  }

  lemma AcquireKeepsLockInv<T>(s: State<T>, k: nat, j: nat)
    requires Enabled(s, Acquire(k)) && j < |s.locks| && LockInv(s, j)
    ensures LockInv(DoAcquire(s, k), j)
  {
    assert j != k ==> s.cur !in s.locks[j].woken;
    var s' := DoAcquire(s, k);
    forall t | t in s'.locks[j].woken ensures Runnable(s', t) {
      assert Runnable(s, t);
    }
  }

  lemma ReleaseKeepsLockInv<T>(s: State<T>, threads: set<T>, k: nat, j: nat)
    requires Enabled(s, Release(k)) && Placed(s, threads) && j < |s.locks| && LockInv(s, j)
    ensures LockInv(DoRelease(s, k), j)
  {
    var l, s' := s.locks[j], DoRelease(s, k);
    if j == k {
      WaiterNotRunnable(s, threads, k, l.wait[0]);
      assert l.wait[0] !in l.woken;
      assert s'.locks[j] == Sync(l.initial, l.value + 1, l.wait[1..], l.woken + {l.wait[0]}, l.holders - {s.cur});
    } else {
      assert s'.locks[j] == l;
    }
    forall t | t in s'.locks[j].woken ensures Runnable(s', t) {
      assert t in l.woken ==> Runnable(s, t);
    }
  }

  lemma StepKeepsInv<T>(s: State<T>, threads: set<T>, step: Step)
    requires Enabled(s, step) && Inv(s, threads)
    ensures Inv(Do(s, step), threads)
  {
    StepKeepsPlaced(s, threads, step);
    forall j | 0 <= j < |s.locks| ensures LockInv(Do(s, step), j) {
      assert LockInv(s, j);
      match step
      case Tick => TickKeepsLockInv(s, j);
      case Acquire(k) => AcquireKeepsLockInv(s, k, j);
      case Release(k) => assert LockInv(s, k); ReleaseKeepsLockInv(s, threads, k, j);
    }
  }

  lemma {:induction false} RunKeepsInv<T>(s: State<T>, threads: set<T>, steps: seq<Step>)
    requires Legal(s, steps) && Inv(s, threads)
    ensures Inv(Run(s, steps), threads)
    decreases |steps|
  {
    if steps != [] {
      StepKeepsInv(s, threads, steps[0]);
      RunKeepsInv(Do(s, steps[0]), threads, steps[1..]);
    }
  }

  /** In every reachable state: each thread is in exactly one place, the ready ring is not empty,
      a semaphore created with v has at most v+1 holders (a lock at most one), the value never
      drops below -1, and a wait ring is never left without a thread that will re-test. */
  lemma Reachable<T>(s: State<T>, threads: set<T>, steps: seq<Step>)
    requires Start(s, threads) && Legal(s, steps)
    ensures Run(s, steps).ready != [] && Placed(Run(s, steps), threads)
    ensures |Run(s, steps).locks| == |s.locks|
    ensures forall k | 0 <= k < |s.locks| :: var l := Run(s, steps).locks[k];
      && l.initial == s.locks[k].initial
      && l.value + |l.holders| == l.initial
      && -1 <= l.value <= l.initial
      && |l.holders| <= l.initial + 1
      && (l.wait != [] ==> |l.woken| >= l.value + 1)
      && (l.wait != [] && l.value >= 0 ==> exists t :: t in l.woken && Runnable(Run(s, steps), t))
  {
    RunKeepsInv(s, threads, steps);
    RunKeepsLocks(s, steps);
    var s' := Run(s, steps);
    forall k | 0 <= k < |s.locks|
      ensures LockInv(s', k)
      ensures s'.locks[k].wait != [] && s'.locks[k].value >= 0 ==> exists t :: t in s'.locks[k].woken && Runnable(s', t)
    {
      assert LockInv(s', k);
      if s'.locks[k].wait != [] && s'.locks[k].value >= 0 {
        var t :| t in s'.locks[k].woken;
      }
    }
  }

  lemma {:induction false} RunKeepsLocks<T>(s: State<T>, steps: seq<Step>)
    requires Legal(s, steps)
    ensures |Run(s, steps).locks| == |s.locks|
    ensures forall k | 0 <= k < |s.locks| :: Run(s, steps).locks[k].initial == s.locks[k].initial
    decreases |steps|
  {
    if steps != [] {
      RunKeepsLocks(Do(s, steps[0]), steps[1..]);
    }
  }

  /** An acquire admits the running thread exactly while at most `initial` others hold the semaphore:
      one created with v admits v+1. */
  lemma Admission<T>(s: State<T>, threads: set<T>, k: nat)
    requires Inv(s, threads) && Enabled(s, Acquire(k))
    ensures s.cur in Do(s, Acquire(k)).locks[k].holders <==> |s.locks[k].holders| <= s.locks[k].initial
  {
    assert LockInv(s, k);
  }

  // ----- The ready ring has two threads whenever one blocks -----

  /** Unnested use: the thread `idle` never acquires, and nobody acquires while holding anything.
      With a single lock this is non-reentrant use. */
  predicate Unnested<T(==)>(s: State<T>, idle: T, step: Step) {
    && Allowed(s, step)
    && (step.Acquire? ==> s.cur != idle && forall j | 0 <= j < |s.locks| :: s.cur !in s.locks[j].holders)
  }

  /** Holders and the idle thread are never in a wait ring, and no holder is in an acquire loop. */
  ghost predicate UnnestedInv<T>(s: State<T>, idle: T) {
    && Runnable(s, idle)
    && (forall j | 0 <= j < |s.locks| :: idle !in s.locks[j].holders && idle !in s.locks[j].woken)
    && (forall j, t | 0 <= j < |s.locks| && t in s.locks[j].holders :: Runnable(s, t))
    && (forall j, k, t | 0 <= j < |s.locks| && 0 <= k < |s.locks| && t in s.locks[j].holders :: t !in s.locks[k].woken)
  }

  /** The running thread never blocks with fewer than two ready threads, so yield_thread never
      leaves it linked as ready.  Only a release can find the rings wrong, exactly when nobody waits. */
  lemma BlockFindsTwoReady<T>(s: State<T>, threads: set<T>, idle: T, step: Step)
    requires Inv(s, threads) && UnnestedInv(s, idle) && Unnested(s, idle, step)
    ensures RingsReady(s, step) <==> Enabled(s, step)
    ensures !RingsReady(s, step) <==> step.Release? && s.locks[step.k].wait == []
  {
    if step.Acquire? && s.locks[step.k].value < 0 {
      var l := s.locks[step.k];
      assert LockInv(s, step.k);
      var h :| h in l.holders;
      assert Runnable(s, h) && Runnable(s, idle);
      assert h in s.ready && idle in s.ready && h != idle;
    }
    if step.Release? {
      assert LockInv(s, step.k);
    }
  }

  lemma StepKeepsRunnable<T>(s: State<T>, step: Step, t: T)
    requires Enabled(s, step) && Runnable(s, t)
    requires step.Acquire? && s.locks[step.k].value < 0 ==> t != s.cur
    ensures |Do(s, step).locks| == |s.locks|
    ensures Runnable(Do(s, step), t)
  {
    if step.Tick? {
      var q := s.ready + [s.cur];
      assert q == [q[0]] + q[1..] && t in q;
    }
  }

  /** Who a step can add to the holders or to the woken threads of a lock. */
  lemma StepMembers<T>(s: State<T>, step: Step, j: nat)
    requires Enabled(s, step) && j < |s.locks|
    ensures var l, l' := s.locks[j], Do(s, step).locks[j];
      && (forall t | t in l'.holders :: t in l.holders || (step == Acquire(j) && l.value >= 0 && t == s.cur))
      && (forall t | t in l'.woken :: t in l.woken || (step == Release(j) && l.wait != [] && t == l.wait[0]))
      && (step == Acquire(j) ==> s.cur !in l'.woken)
  {
  }

  lemma StepKeepsUnnestedInv<T>(s: State<T>, threads: set<T>, idle: T, step: Step)
    requires Inv(s, threads) && UnnestedInv(s, idle) && Unnested(s, idle, step) && Enabled(s, step)
    ensures UnnestedInv(Do(s, step), idle)
  {
    hide Do, Places;
    var s' := Do(s, step);
    StepKeepsRunnable(s, step, idle);
    if step.Release? && s.locks[step.k].wait != [] {
      WaiterNotRunnable(s, threads, step.k, s.locks[step.k].wait[0]);
    }
    forall j | 0 <= j < |s.locks| ensures idle !in s'.locks[j].holders && idle !in s'.locks[j].woken {
      StepMembers(s, step, j);
    }
    forall j, t | 0 <= j < |s.locks| && t in s'.locks[j].holders ensures Runnable(s', t) {
      StepMembers(s, step, j);
      StepKeepsRunnable(s, step, t);
    }
    forall j, k, t | 0 <= j < |s.locks| && 0 <= k < |s.locks| && t in s'.locks[j].holders
        ensures t !in s'.locks[k].woken {
      StepMembers(s, step, j);
      StepMembers(s, step, k);
    }
  }

  /** Steps the threads' own code allows, with no assumption about the rings. */
  predicate AllowedRun<T(==)>(s: State<T>, steps: seq<Step>)
    decreases |steps|
  {
    steps == [] || (Allowed(s, steps[0]) && (Enabled(s, steps[0]) ==> AllowedRun(Do(s, steps[0]), steps[1..])))
  }

  predicate UnnestedRun<T(==)>(s: State<T>, idle: T, steps: seq<Step>)
    decreases |steps|
  {
    steps == [] || (Unnested(s, idle, steps[0]) &&
        (Enabled(s, steps[0]) ==> UnnestedRun(Do(s, steps[0]), idle, steps[1..])))
  }

  /** Every release in the run finds a waiter. */
  predicate WaitersFound<T(==)>(s: State<T>, steps: seq<Step>)
    decreases |steps|
  {
    steps == [] || (
      && (steps[0].Release? && steps[0].k < |s.locks| ==> s.locks[steps[0].k].wait != [])
      && (Enabled(s, steps[0]) ==> WaitersFound(Do(s, steps[0]), steps[1..])))
  }

  /** A run of unnested use finds the rings as the pointer code needs them at every step if and only if
      every release finds a waiter. */
  lemma {:induction false} UnnestedRunIsLegal<T>(s: State<T>, threads: set<T>, idle: T, steps: seq<Step>)
    requires Inv(s, threads) && UnnestedInv(s, idle) && UnnestedRun(s, idle, steps)
    ensures Legal(s, steps) <==> WaitersFound(s, steps)
    ensures Legal(s, steps) ==> Inv(Run(s, steps), threads) && UnnestedInv(Run(s, steps), idle)
    decreases |steps|
  {
    if steps != [] {
      BlockFindsTwoReady(s, threads, idle, steps[0]);
      if Enabled(s, steps[0]) {
        StepKeepsInv(s, threads, steps[0]);
        StepKeepsUnnestedInv(s, threads, idle, steps[0]);
        UnnestedRunIsLegal(Do(s, steps[0]), threads, idle, steps[1..]);
      }
    }
  }

  lemma {:induction false} UnnestedIsAllowed<T>(s: State<T>, idle: T, steps: seq<Step>)
    requires UnnestedRun(s, idle, steps)
    ensures AllowedRun(s, steps)
    decreases |steps|
  {
    if steps != [] && Enabled(s, steps[0]) {
      UnnestedIsAllowed(Do(s, steps[0]), idle, steps[1..]);
    }
  }

  /** Where a run of unnested use stops being legal, a release finds no waiter. */
  lemma {:induction false} UnnestedPrefix<T>(s: State<T>, threads: set<T>, idle: T, steps: seq<Step>, n: nat)
    requires Inv(s, threads) && UnnestedInv(s, idle) && UnnestedRun(s, idle, steps)
    requires n < |steps| && Legal(s, steps[..n]) && !RingsReady(Run(s, steps[..n]), steps[n])
    ensures steps[n].Release? && steps[n].k < |Run(s, steps[..n]).locks|
    ensures Run(s, steps[..n]).locks[steps[n].k].wait == []
    decreases n
  {
    BlockFindsTwoReady(s, threads, idle, steps[0]);
    if n > 0 {
      assert steps[..n][1..] == steps[1..][..n - 1];
      StepKeepsInv(s, threads, steps[0]);
      StepKeepsUnnestedInv(s, threads, idle, steps[0]);
      UnnestedPrefix(Do(s, steps[0]), threads, idle, steps[1..], n - 1);
    }
  }

  // ----- Fairness of the ready ring -----

  function SwitchCount<T(==)>(s: State<T>, steps: seq<Step>): nat
    requires Legal(s, steps)
    decreases |steps|
  {
    if steps == [] then 0
    else (if Switches(s, steps[0]) then 1 else 0) + SwitchCount(Do(s, steps[0]), steps[1..])
  }

  /** The thread at position i of the ready ring has advanced by the number of context switches,
      and nothing else moves it, ... */
  lemma {:induction false} PositionAdvances<T>(s: State<T>, steps: seq<Step>, i: nat)
    requires Legal(s, steps) && i < |s.ready| && SwitchCount(s, steps) <= i
    ensures i - SwitchCount(s, steps) < |Run(s, steps).ready|
    ensures Run(s, steps).ready[i - SwitchCount(s, steps)] == s.ready[i]
    decreases |steps|
  {
    if steps != [] {
      var s1 := Do(s, steps[0]);
      PositionAdvances(s1, steps[1..], if Switches(s, steps[0]) then i - 1 else i);
    }
  }

  /** ... so the switch after i others makes it the running thread. */
  lemma RunsAfterSwitches<T>(s: State<T>, steps: seq<Step>, last: Step, i: nat)
    requires Legal(s, steps) && i < |s.ready| && SwitchCount(s, steps) == i
    requires Enabled(Run(s, steps), last) && Switches(Run(s, steps), last)
    ensures Do(Run(s, steps), last).cur == s.ready[i]
  {
    PositionAdvances(s, steps, i);
  }

  function TickCount(steps: seq<Step>): nat {
    if steps == [] then 0 else (if steps[0].Tick? then 1 else 0) + TickCount(steps[1..])
  }

  /** Ticks up to and including the next slice expiry. */
  function Remaining(ticks: nat): (d: nat)
    requires ticks < U32
    ensures 1 <= d <= SLICE && Expires(ticks + d - 1)
    ensures forall t | ticks <= t < ticks + d - 1 :: !Expires(t)
  {
    var d := SLICE - ticks % SLICE;
    if ticks + d > U32 then U32 - ticks else d
  }

  /** The slice that ends with the wrap of `ticks` is the only short one. */
  lemma ShortSliceAtWrap(ticks: nat)
    requires ticks < U32 && ticks % SLICE == 0
    ensures Remaining(ticks) == if ticks == U32 - 16 then 16 else SLICE
  {
  }

  lemma RemainingCountsDown(ticks: nat)
    requires ticks < U32
    ensures Expires(ticks) <==> Remaining(ticks) == 1
    ensures !Expires(ticks) ==> Remaining((ticks + 1) % U32) == Remaining(ticks) - 1
  {
  }

  lemma {:induction false} TicksForceSwitches<T>(s: State<T>, steps: seq<Step>)
    requires Legal(s, steps) && s.ticks < U32
    ensures TickCount(steps) < Remaining(s.ticks) + SLICE * SwitchCount(s, steps)
    decreases |steps|
  {
    if steps != [] {
      var s1 := Do(s, steps[0]);
      RemainingCountsDown(s.ticks);
      if steps[0].Tick? {
        assert s1.ticks == (s.ticks + 1) % U32;
      } else {
        assert s1.ticks == s.ticks;
      }
      TicksForceSwitches(s1, steps[1..]);
    }
  }

  /** Whatever else happens, a ready thread at position i runs within 20*(i+1) ticks. */
  lemma {:induction false} RunsWithinTicks<T>(s: State<T>, steps: seq<Step>, i: nat) returns (n: nat)
    requires Legal(s, steps) && s.ticks < U32 && i < |s.ready|
    requires TickCount(steps) >= SLICE * (i + 1)
    ensures n <= |steps| && Legal(s, steps[..n]) && Run(s, steps[..n]).cur == s.ready[i]
  {
    TicksForceSwitches(s, steps);
    n := ReachSwitch(s, steps, i);
  }

  lemma {:induction false} ReachSwitch<T>(s: State<T>, steps: seq<Step>, i: nat) returns (n: nat)
    requires Legal(s, steps) && i < |s.ready| && SwitchCount(s, steps) > i
    ensures n <= |steps| && Legal(s, steps[..n]) && Run(s, steps[..n]).cur == s.ready[i]
    decreases |steps|
  {
    var s1 := Do(s, steps[0]);
    if Switches(s, steps[0]) && i == 0 {
      n := 1;
      assert steps[..1][1..] == [];
    } else {
      var m := ReachSwitch(s1, steps[1..], if Switches(s, steps[0]) then i - 1 else i);
      n := m + 1;
      assert steps[..n][1..] == steps[1..][..m];
    }
  }

  /** No lost wake-up, in time: while threads wait on a semaphore that would admit one, some woken
      thread is running already or runs within 20 ticks per ready thread. */
  lemma WokenThreadRuns<T>(s: State<T>, threads: set<T>, k: nat, steps: seq<Step>) returns (t: T, n: nat)
    requires Inv(s, threads) && k < |s.locks| && s.locks[k].wait != [] && s.locks[k].value >= 0
    requires Legal(s, steps) && s.ticks < U32 && TickCount(steps) >= SLICE * |s.ready|
    ensures t in s.locks[k].woken && n <= |steps| && Legal(s, steps[..n]) && Run(s, steps[..n]).cur == t
  {
    assert LockInv(s, k);
    t :| t in s.locks[k].woken;
    assert Runnable(s, t);
    if t == s.cur {
      n := 0;
    } else {
      var i: nat :| i < |s.ready| && s.ready[i] == t;
      n := RunsWithinTicks(s, steps, i);
    }
  }

  // ----- Nested use breaks the ready ring -----

  function Ticks(n: nat): seq<Step> {
    if n == 0 then [] else [Tick] + Ticks(n - 1)
  }

  lemma QuietTick<T>(s: State<T>)
    requires s.ready != [] && s.ticks % SLICE + 1 < SLICE && s.ticks + 1 < U32
    ensures Do(s, Tick) == s.(ticks := s.ticks + 1) && (s.ticks + 1) % SLICE == s.ticks % SLICE + 1
  {
  }

  lemma {:induction false} IdleTicks<T>(s: State<T>, n: nat)
    requires s.ready != [] && s.ticks % SLICE + n < SLICE && s.ticks + n < U32
    ensures Legal(s, Ticks(n)) && Run(s, Ticks(n)) == s.(ticks := s.ticks + n)
    decreases n
  {
    if n > 0 {
      assert Ticks(n)[1..] == Ticks(n - 1);
      QuietTick(s);
      IdleTicks(s.(ticks := s.ticks + 1), n - 1);
    }
  }

  lemma RunOneMore<T>(s: State<T>, steps: seq<Step>, last: Step)
    requires Legal(s, steps) && Enabled(Run(s, steps), last)
    ensures Legal(s, steps + [last]) && Run(s, steps + [last]) == Do(Run(s, steps), last)
  {
    assert [last][1..] == [];
    RunConcat(s, steps, [last]);
  }

  lemma SliceEnd(ticks: nat)
    requires ticks % SLICE == 0 && ticks + SLICE < U32
    ensures Expires(ticks + 19) && (ticks + 19 + 1) % U32 == ticks + SLICE
  {
  }

  lemma ExpiringTick<T>(s: State<T>)
    requires s.ready != [] && Expires(s.ticks)
    ensures Enabled(s, Tick)
    ensures Do(s, Tick) == Dispatch(s.(ticks := (s.ticks + 1) % U32, ready := s.ready + [s.cur]))
  {
  }

  lemma WholeSlice<T>(s: State<T>)
    requires s.ready != [] && s.ticks % SLICE == 0 && s.ticks + SLICE < U32
    ensures Legal(s, Ticks(19) + [Tick])
    ensures Run(s, Ticks(19) + [Tick]) == Dispatch(s.(ticks := s.ticks + SLICE, ready := s.ready + [s.cur]))
  {
    hide Legal, Run, Ticks, Dispatch, Expires;
    IdleTicks(s, 19);
    var s1 := s.(ticks := s.ticks + 19);
    SliceEnd(s.ticks);
    ExpiringTick(s1);
    RunOneMore(s, Ticks(19), Tick);
  }

  ghost predicate Reaches<T>(s: State<T>, steps: seq<Step>, s': State<T>) {
    Legal(s, steps) && Run(s, steps) == s'
  }

  lemma ReachesSlice<T>(s: State<T>, steps: seq<Step>, s': State<T>)
    requires Reaches(s, steps, s') && s'.ready != [] && s'.ticks % SLICE == 0 && s'.ticks + SLICE < U32
    ensures Reaches(s, steps + (Ticks(19) + [Tick]),
          Dispatch(s'.(ticks := s'.ticks + SLICE, ready := s'.ready + [s'.cur])))
  {
    WholeSlice(s');
    RunConcat(s, steps, Ticks(19) + [Tick]);
  }

  const FREE: Sync<int> := Sync(0, 0, [], {}, {})
  const HELD1: Sync<int> := Sync(0, -1, [], {}, {1})
  const HELD2: Sync<int> := Sync(0, -1, [], {}, {2})

  lemma NestedAcquires()
    ensures DoAcquire(State(20, 1, [2, 0], [FREE, FREE]), 0) == State(20, 1, [2, 0], [HELD1, FREE])
    ensures DoAcquire(State(40, 2, [0, 1], [HELD1, FREE]), 1) == State(40, 2, [0, 1], [HELD1, HELD2])
    ensures DoAcquire(State(40, 2, [0, 1], [HELD1, HELD2]), 0) == State(40, 0, [1], [HELD1.(wait := [2]), HELD2])
  {
    var none: set<int> := {};
    assert none - {1} == none == none - {2} && none + {1} == {1} && none + {2} == {2};
    assert [FREE, FREE][0 := HELD1] == [HELD1, FREE];
    assert [HELD1, FREE][1 := HELD2] == [HELD1, HELD2];
    assert [HELD1, HELD2][0 := HELD1.(wait := [2])] == [HELD1.(wait := [2]), HELD2];
    assert [] + [2] == [2] && [0, 1][1..] == [1];
  }

  lemma NestedStart()
    ensures Start(State(20, 1, [2, 0], [FREE, FREE]), {0, 1, 2})
  {
    var s := State(20, 1, [2, 0], [FREE, FREE]);
    assert s.locks[1..] == [FREE] && s.locks[1..][1..] == [];
    forall t ensures Waits(s.locks, t) == 0 {
      assert Waits(s.locks[1..][1..], t) == 0;
    }
  }

  /** Thread 1 takes lock 0; a slice later thread 2 takes lock 1. */
  lemma BothLocksHeld() returns (steps: seq<Step>)
    ensures Reaches(State(20, 1, [2, 0], [FREE, FREE]), steps, State(40, 2, [0, 1], [HELD1, HELD2]))
  {
    NestedAcquires();
    var s := State(20, 1, [2, 0], [FREE, FREE]);
    RunOneMore(s, [], Acquire(0));
    steps := [] + [Acquire(0)];
    ReachesSlice(s, steps, State(20, 1, [2, 0], [HELD1, FREE]));
    steps := steps + (Ticks(19) + [Tick]);
    RunOneMore(s, steps, Acquire(1));
    steps := steps + [Acquire(1)];
  }

  /** Unnested use is needed: threads 1 and 2 taking two locks in opposite orders, with thread 0
      never acquiring, reach a state in which the running thread blocks with one ready thread. */
  lemma NestedUseFails() returns (s: State<int>, steps: seq<Step>)
    ensures Start(s, {0, 1, 2}) && Legal(s, steps)
    ensures Allowed(Run(s, steps), Acquire(1)) && !RingsReady(Run(s, steps), Acquire(1))
  {
    NestedStart();
    NestedAcquires();
    s := State(20, 1, [2, 0], [FREE, FREE]);
    steps := BothLocksHeld();
    RunOneMore(s, steps, Acquire(0));
    steps := steps + [Acquire(0)];
    ReachesSlice(s, steps, State(40, 0, [1], [HELD1.(wait := [2]), HELD2]));
    steps := steps + (Ticks(19) + [Tick]);
    assert Run(s, steps) == State(60, 1, [0], [HELD1.(wait := [2]), HELD2]);
  }

  // ----- A release without a waiter -----

  /** A release meets the rings as it needs them exactly when somebody waits. */
  lemma ReleaseNeedsWaiter<T>(s: State<T>, threads: set<T>, k: nat)
    requires Inv(s, threads) && Allowed(s, Release(k))
    ensures RingsReady(s, Release(k)) <==> s.locks[k].wait != []
  {
    assert LockInv(s, k);
  }

  /** The condition is needed: to take any free lock or semaphore and give it back undisturbed, from
      any start state, is such a release. */
  lemma UncontendedReleaseFails<T>(s: State<T>, threads: set<T>, k: nat)
    requires Start(s, threads) && k < |s.locks|
    ensures Legal(s, [Acquire(k)])
    ensures Allowed(Run(s, [Acquire(k)]), Release(k)) && !RingsReady(Run(s, [Acquire(k)]), Release(k))
  {
    assert [Acquire(k)][1..] == [];
  }

  /** The state after a release of lock k without a waiter, as far as its rings are still queues: the
      lock's wait ring is gone and its sentinel, here `x`, is the last ready thread. */
  function Spliced<T(==)>(s: State<T>, k: nat, x: T): State<T>
    requires k < |s.locks|
  {
    s.(ready := s.ready + [x], locks := s.locks[..k] + s.locks[k + 1..])
  }

  /** From then on the scheduler treats the sentinel as a thread: whatever the threads do with the
      other locks, it is current after one context switch per ready thread and one more. */
  lemma SentinelRuns<T>(s: State<T>, k: nat, x: T, steps: seq<Step>, last: Step)
    requires k < |s.locks| && Legal(Spliced(s, k, x), steps) && SwitchCount(Spliced(s, k, x), steps) == |s.ready|
    requires Enabled(Run(Spliced(s, k, x), steps), last) && Switches(Run(Spliced(s, k, x), steps), last)
    ensures Do(Run(Spliced(s, k, x), steps), last).cur == x
  {
    RunsAfterSwitches(Spliced(s, k, x), steps, last, |s.ready|);
  }

  // ----- Wake-up order -----

  /** The thread, if any, that a step puts to wait on lock k. */
  function BlockedBy<T(==)>(s: State<T>, step: Step, k: nat): seq<T> {
    if step == Acquire(k) && k < |s.locks| && s.locks[k].value < 0 then [s.cur] else []
  }

  /** The thread, if any, that a step takes from lock k to the tail of the ready ring. */
  function WokenBy<T(==)>(s: State<T>, step: Step, k: nat): seq<T>
    requires Enabled(s, step)
  {
    if step == Release(k) then Do(s, step).ready[|s.ready|..] else []
  }

  function Blocked<T(==)>(s: State<T>, steps: seq<Step>, k: nat): seq<T>
    requires Legal(s, steps)
    decreases |steps|
  {
    if steps == [] then [] else BlockedBy(s, steps[0], k) + Blocked(Do(s, steps[0]), steps[1..], k)
  }

  function Woken<T(==)>(s: State<T>, steps: seq<Step>, k: nat): seq<T>
    requires Legal(s, steps)
    decreases |steps|
  {
    if steps == [] then [] else WokenBy(s, steps[0], k) + Woken(Do(s, steps[0]), steps[1..], k)
  }

  lemma StepWakesInOrder<T>(s: State<T>, step: Step, k: nat)
    requires Enabled(s, step) && k < |s.locks|
    ensures s.locks[k].wait + BlockedBy(s, step, k) == WokenBy(s, step, k) + Do(s, step).locks[k].wait
  {
  }

  lemma JoinLogs<T>(a: seq<T>, b1: seq<T>, b: seq<T>, w1: seq<T>, m: seq<T>, w: seq<T>, r: seq<T>)
    requires a + b1 == w1 + m && m + b == w + r
    ensures a + (b1 + b) == (w1 + w) + r
  {
    calc {
      a + (b1 + b);
      (a + b1) + b;
      w1 + (m + b);
      (w1 + w) + r;
    }
  }

  /** Threads are woken from a lock in exactly the order in which they blocked on it. */
  lemma {:induction false} WokenInOrder<T>(s: State<T>, steps: seq<Step>, k: nat)
    requires Legal(s, steps) && k < |s.locks|
    ensures k < |Run(s, steps).locks|
    ensures s.locks[k].wait + Blocked(s, steps, k) == Woken(s, steps, k) + Run(s, steps).locks[k].wait
    decreases |steps|
  {
    if steps != [] {
      var s1 := Do(s, steps[0]);
      StepWakesInOrder(s, steps[0], k);
      WokenInOrder(s1, steps[1..], k);
      JoinLogs(s.locks[k].wait, BlockedBy(s, steps[0], k), Blocked(s1, steps[1..], k), WokenBy(s, steps[0], k),
               s1.locks[k].wait, Woken(s1, steps[1..], k), Run(s, steps).locks[k].wait);
    }
  }
}
