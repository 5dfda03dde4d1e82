/** The scheduler and the locks over real rings of nodes (kernel/thread/init.c,
    kernel/interrupt/timer.c, kernel/syscall/sys_call.c, kernel/sync/sync.c).

    A thread is identified with the list node embedded in it, so list_entry is the identity.  Each
    method assigns the globals and links as its C function does and is proved to take the step of
    the Scheduler module's state machine. */
module Kernel {
  import opened Common
  import opened Lists
  import opened Scheduler

  type Thread = ListHead

  // ----- Rings that hold the queues -----

  /** The wait rings are closed, share no node with each other, and none with `q`. */
  ghost predicate WaitRings(h: Links, waits: seq<seq<ListHead>>, q: seq<ListHead>) {
    && (forall k | 0 <= k < |waits| :: Ring(h, waits[k]))
    && (forall k, x | 0 <= k < |waits| && x in waits[k] :: x !in q)
    && (forall j, k, x | 0 <= j < k < |waits| && x in waits[j] :: x !in waits[k])
  }

  /** The wait rings of `s` from their sentinels on. */
  ghost function QueuesOf(s: State<Thread>, sentinels: seq<ListHead>): (w: seq<seq<ListHead>>)
    requires |sentinels| == |s.locks|
    ensures |w| == |s.locks| && forall k | 0 <= k < |w| :: w[k] == [sentinels[k]] + s.locks[k].wait
  {
    seq(|s.locks|, k requires 0 <= k < |s.locks| => [sentinels[k]] + s.locks[k].wait)
  }

  /** The links form closed rings that hold, in order, the queues of `s`; the running thread's node
      is alone, and no node is in two rings. */
  ghost predicate Shape(h: Links, s: State<Thread>, sentinels: seq<ListHead>) {
    && |sentinels| == |s.locks|
    && Ring(h, [s.cur]) && Ring(h, s.ready) && s.cur !in s.ready
    && WaitRings(h, QueuesOf(s, sentinels), [s.cur] + s.ready)
  }

  lemma AppendKeepsWaits(h: Links, waits: seq<seq<ListHead>>, q: seq<ListHead>, node: ListHead)
    requires Ring(h, q) && node !in q && WaitRings(h, waits, [node] + q)
    ensures q[|q| - 1] in h.next
    ensures Ring(Insert(h, node, q[|q| - 1]), q + [node])
    ensures WaitRings(Insert(h, node, q[|q| - 1]), waits, q + [node])
  {
    AppendToRing(h, q, node);
    assert forall x | x in q :: x in [node] + q;
    assert node in [node] + q;
    forall k | 0 <= k < |waits| ensures Ring(Insert(h, node, q[|q| - 1]), waits[k]) {
      InsertElsewhere(h, q, |q| - 1, node, waits[k]);
    }
  }

  lemma DispatchKeepsWaits(h: Links, waits: seq<seq<ListHead>>, q: seq<ListHead>)
    requires Ring(h, q) && |q| > 1 && WaitRings(h, waits, q)
    ensures q[0] in h.next && q[0] in h.prev
    ensures Ring(Delete(h, q[0]), [q[0]]) && Ring(Delete(h, q[0]), q[1..]) && q[0] !in q[1..]
    ensures WaitRings(Delete(h, q[0]), waits, [q[0]] + q[1..])
  {
    DeleteFirst(h, q);
    DeletedIsAlone(h, q, 0);
    assert [q[0]] + q[1..] == q;
    forall k | 0 <= k < |waits| ensures Ring(Delete(h, q[0]), waits[k]) {
      DeleteElsewhere(h, q, 0, waits[k]);
    }
  }

  lemma EnqueueKeepsWaits(h: Links, waits: seq<seq<ListHead>>, q: seq<ListHead>, k: nat, node: ListHead)
    requires k < |waits| && Ring(h, q) && node !in q && WaitRings(h, waits, [node] + q)
    ensures Ring(h, waits[k]) && waits[k][|waits[k]| - 1] in h.next
    ensures Ring(Insert(h, node, waits[k][|waits[k]| - 1]), q)
    ensures WaitRings(Insert(h, node, waits[k][|waits[k]| - 1]), waits[k := waits[k] + [node]], q)
  {
    var w := waits[k];
    assert forall x | x in q :: x in [node] + q;
    assert node in [node] + q;
    AppendToRing(h, w, node);
    InsertElsewhere(h, w, |w| - 1, node, q);
    forall j | 0 <= j < |waits| && j != k ensures Ring(Insert(h, node, w[|w| - 1]), waits[j]) {
      InsertElsewhere(h, w, |w| - 1, node, waits[j]);
    }
  }

  lemma DequeueKeepsWaits(h: Links, waits: seq<seq<ListHead>>, q: seq<ListHead>, r: seq<ListHead>, k: nat)
    requires k < |waits| && |waits[k]| > 1 && Ring(h, q) && Ring(h, r) && WaitRings(h, waits, q + r)
    ensures waits[k][1] in h.next && waits[k][1] in h.prev
    ensures Ring(Delete(h, waits[k][1]), [waits[k][1]])
    ensures Ring(Delete(h, waits[k][1]), q) && Ring(Delete(h, waits[k][1]), r)
    ensures WaitRings(Delete(h, waits[k][1]), waits[k := [waits[k][0]] + waits[k][2..]], [waits[k][1]] + (q + r))
  {
    var w := waits[k];
    assert forall x | x in q :: x in q + r;
    assert forall x | x in r :: x in q + r;
    DeleteFromRing(h, w, 1);
    assert w[..1] == [w[0]];
    DeletedIsAlone(h, w, 1);
    DeleteElsewhere(h, w, 1, q);
    DeleteElsewhere(h, w, 1, r);
    forall j | 0 <= j < |waits| && j != k ensures Ring(Delete(h, w[1]), waits[j]) {
      DeleteElsewhere(h, w, 1, waits[j]);
    }
    assert forall x | x in [w[0]] + w[2..] :: x in w && x != w[1];
  }

  /** The links around the head of the ready ring. */
  lemma ReadyHead(h: Links, s: State<Thread>, sentinels: seq<ListHead>)
    requires Shape(h, s, sentinels)
    ensures s.ready != [] && Ring(h, s.ready)
    ensures s.ready[0] in h.next && s.ready[0] in h.prev && h.prev[s.ready[0]] == s.ready[|s.ready| - 1]
    ensures s.ready[|s.ready| - 1] in h.next && h.next[s.ready[|s.ready| - 1]] == s.ready[0]
  {
    SecondInRing(h, s.ready);
  }

  lemma RotateShape(h: Links, s: State<Thread>, sentinels: seq<ListHead>)
    requires Shape(h, s, sentinels)
    ensures s.cur in h.next && s.ready[|s.ready| - 1] in h.next
    ensures var h1 := Insert(h, s.cur, s.ready[|s.ready| - 1]);
      && Ring(h1, s.ready + [s.cur])
      && s.ready[0] in h1.next && s.ready[0] in h1.prev
      && Shape(Delete(h1, s.ready[0]), Dispatch(s.(ready := s.ready + [s.cur])), sentinels)
  {
    var q := s.ready + [s.cur];
    SecondInRing(h, [s.cur]);
    AppendKeepsWaits(h, QueuesOf(s, sentinels), s.ready, s.cur);
    DispatchKeepsWaits(Insert(h, s.cur, s.ready[|s.ready| - 1]), QueuesOf(s, sentinels), q);
    var s' := Dispatch(s.(ready := q));
    assert s'.cur == q[0] && s'.ready == q[1..];
    assert QueuesOf(s', sentinels) == QueuesOf(s, sentinels);
  }

  lemma BlockShape(h: Links, s: State<Thread>, sentinels: seq<ListHead>, k: nat)
    requires Shape(h, s, sentinels) && k < |s.locks| && s.locks[k].value < 0 && |s.ready| >= 2
    ensures s.cur in h.next && sentinels[k] in h.next && sentinels[k] in h.prev
    ensures h.prev[sentinels[k]] in h.next && h.next[h.prev[sentinels[k]]] == sentinels[k]
    ensures var h1 := Insert(h, s.cur, h.prev[sentinels[k]]);
      && Ring(h1, s.ready)
      && s.ready[0] in h1.next && s.ready[0] in h1.prev
      && Shape(Delete(h1, s.ready[0]), DoAcquire(s, k), sentinels)
  {
    var waits := QueuesOf(s, sentinels);
    var w := waits[k];
    SecondInRing(h, w);
    SecondInRing(h, [s.cur]);
    EnqueueKeepsWaits(h, waits, s.ready, k, s.cur);
    var waits' := waits[k := w + [s.cur]];
    DispatchKeepsWaits(Insert(h, s.cur, w[|w| - 1]), waits', s.ready);
    var s' := DoAcquire(s, k);
    assert s'.cur == s.ready[0] && s'.ready == s.ready[1..];
    assert [sentinels[k]] + (s.locks[k].wait + [s.cur]) == w + [s.cur];
    assert QueuesOf(s', sentinels) == waits';
  }

  /** With a single ready thread, blocking closes the rings around it without taking it out. */
  lemma StaleShape(h: Links, s: State<Thread>, sentinels: seq<ListHead>, k: nat)
    requires Shape(h, s, sentinels) && k < |s.locks| && |s.ready| == 1
    ensures s.cur in h.next && sentinels[k] in h.next && sentinels[k] in h.prev
    ensures h.prev[sentinels[k]] in h.next && h.next[h.prev[sentinels[k]]] == sentinels[k]
    ensures var h1 := Insert(h, s.cur, h.prev[sentinels[k]]);
      && Ring(h1, s.ready) && s.ready[0] in h1.next && s.ready[0] in h1.prev && Delete(h1, s.ready[0]) == h1
      && WaitRings(h1, QueuesOf(s, sentinels)[k := [sentinels[k]] + s.locks[k].wait + [s.cur]], s.ready)
  {
    var waits := QueuesOf(s, sentinels);
    SecondInRing(h, waits[k]);
    SecondInRing(h, [s.cur]);
    EnqueueKeepsWaits(h, waits, s.ready, k, s.cur);
    DeletedIsAlone(Insert(h, s.cur, h.prev[sentinels[k]]), s.ready, 0);
  }

  lemma TakeShape(h: Links, s: State<Thread>, sentinels: seq<ListHead>, k: nat)
    requires Shape(h, s, sentinels) && k < |s.locks| && s.locks[k].value >= 0
    ensures Shape(h, DoAcquire(s, k), sentinels)
  {
    assert QueuesOf(DoAcquire(s, k), sentinels) == QueuesOf(s, sentinels);
  }

  lemma WaiterLinks(h: Links, w: seq<ListHead>)
    requires Ring(h, w) && |w| > 1
    ensures w[1] in h.next && w[1] in h.prev && h.next[w[1]] in h.next && h.prev[w[1]] in h.next
  {
    assert LinkedAt(h, w, 1) && LinkedAt(h, w, After(1, |w|)) && LinkedAt(h, w, 0);
  }

  lemma WakeShape(h: Links, s: State<Thread>, sentinels: seq<ListHead>, k: nat)
    requires Shape(h, s, sentinels) && k < |s.locks| && s.locks[k].wait != []
    ensures sentinels[k] in h.next && h.next[sentinels[k]] == s.locks[k].wait[0]
    ensures s.locks[k].wait[0] in h.next && s.locks[k].wait[0] in h.prev
    ensures h.next[s.locks[k].wait[0]] in h.next && h.prev[s.locks[k].wait[0]] in h.next
    ensures var h1 := Delete(h, s.locks[k].wait[0]);
      && s.ready[0] in h1.prev && h1.prev[s.ready[0]] == s.ready[|s.ready| - 1]
      && s.ready[|s.ready| - 1] in h1.next && h1.next[s.ready[|s.ready| - 1]] == s.ready[0]
      && Shape(Insert(h1, s.locks[k].wait[0], s.ready[|s.ready| - 1]), WakeOne(s, k), sentinels)
  {
    hide Ring, Insert, Delete;
    var waits := QueuesOf(s, sentinels);
    var w := waits[k];
    SecondInRing(h, w);
    WaiterLinks(h, w);
    DequeueKeepsWaits(h, waits, [s.cur], s.ready, k);
    SecondInRing(Delete(h, w[1]), s.ready);
    var h1, waits' := Delete(h, w[1]), waits[k := [w[0]] + w[2..]];
    assert w[1] in [w[1]] + ([s.cur] + s.ready);
    assert w[1] != s.cur && w[1] !in s.ready by {
      assert w[1] in w && s.cur in [s.cur] + s.ready && forall x | x in s.ready :: x in [s.cur] + s.ready;
    }
    AppendKeepsWaits(h1, waits', s.ready, w[1]) by {
      assert forall x | x in [w[1]] + s.ready :: x in [w[1]] + ([s.cur] + s.ready);
    }
    var h2 := Insert(h1, w[1], s.ready[|s.ready| - 1]);
    InsertElsewhere(h1, s.ready, |s.ready| - 1, w[1], [s.cur]);
    var s' := WakeOne(s, k);
    assert s'.ready == s.ready + [w[1]] && s'.cur == s.cur;
    assert [sentinels[k]] + s.locks[k].wait[1..] == [w[0]] + w[2..];
    assert QueuesOf(s', sentinels) == waits';
    forall j, x | 0 <= j < |waits'| && x in waits'[j] ensures x !in [s.cur] + s'.ready {
      assert x !in [w[1]] + ([s.cur] + s.ready);
    }
  }

  lemma CountShape(h: Links, s: State<Thread>, sentinels: seq<ListHead>, k: nat)
    requires Shape(h, s, sentinels) && k < |s.locks|
    ensures Shape(h, CountUp(s, k), sentinels)
  {
    assert QueuesOf(CountUp(s, k), sentinels) == QueuesOf(s, sentinels);
  }

  /** A release that finds no waiter links the sentinel itself as the last ready thread. */
  lemma EmptyWakeLinksSentinel(h: Links, s: State<Thread>, sentinels: seq<ListHead>, k: nat)
    requires Shape(h, s, sentinels) && k < |s.locks| && s.locks[k].wait == []
    ensures sentinels[k] in h.next && h.next[sentinels[k]] == sentinels[k]
    ensures sentinels[k] in h.prev && h.prev[sentinels[k]] == sentinels[k]
    ensures Delete(h, sentinels[k]) == h && s.ready[|s.ready| - 1] in h.next
    ensures Ring(Insert(h, sentinels[k], s.ready[|s.ready| - 1]), s.ready + [sentinels[k]])
  {
    var w := QueuesOf(s, sentinels)[k];
    assert w == [sentinels[k]];
    SecondInRing(h, w);
    DeletedIsAlone(h, w, 0);
    assert sentinels[k] in w && forall x | x in s.ready :: x in [s.cur] + s.ready;
    AppendToRing(h, s.ready, sentinels[k]);
  }

  function Drop<T>(q: seq<T>, k: nat): (r: seq<T>)
    requires k < |q|
    ensures |r| == |q| - 1 && forall i | 0 <= i < |r| :: r[i] == q[if i < k then i else i + 1]
  {
    q[..k] + q[k + 1..]
  }

  lemma DropKeepsWaits(h: Links, waits: seq<seq<ListHead>>, q: seq<ListHead>, k: nat, x: ListHead)
    requires k < |waits| && waits[k] == [x] && WaitRings(h, waits, q)
    ensures WaitRings(h, Drop(waits, k), q + [x])
  {
    hide Ring;
    var w := Drop(waits, k);
    assert x in waits[k];
    forall j | 0 <= j < |w| ensures x !in w[j] {
      assert w[j] == waits[if j < k then j else j + 1];
    }
  }

  /** All other rings stay: the links are those of the queues without lock k. */
  lemma EmptyWakeShape(h: Links, s: State<Thread>, sentinels: seq<ListHead>, k: nat)
    requires Shape(h, s, sentinels) && k < |s.locks| && s.locks[k].wait == []
    ensures s.ready[|s.ready| - 1] in h.next
    ensures Shape(Insert(h, sentinels[k], s.ready[|s.ready| - 1]), Spliced(s, k, sentinels[k]), Drop(sentinels, k))
  {
    var waits, x := QueuesOf(s, sentinels), sentinels[k];
    var s' := Spliced(s, k, x);
    assert waits[k] == [x] && x in waits[k];
    assert s.cur in [s.cur] + s.ready && forall y | y in s.ready :: y in [s.cur] + s.ready;
    AppendToRing(h, s.ready, x);
    InsertElsewhere(h, s.ready, |s.ready| - 1, x, [s.cur]);
    DropKeepsWaits(h, waits, [s.cur] + s.ready, k, x);
    assert [s.cur] + s.ready + [x] == [s.cur] + s'.ready;
    assert s'.locks == Drop(s.locks, k);
    assert QueuesOf(s', Drop(sentinels, k)) == Drop(waits, k);
    var h' := Insert(h, x, s.ready[|s.ready| - 1]);
    forall j | 0 <= j < |waits| - 1 ensures Ring(h', Drop(waits, k)[j]) {
      InsertElsewhere(h, s.ready, |s.ready| - 1, x, Drop(waits, k)[j]);
    }
  }

  lemma SentinelIn(h: Links, s: State<Thread>, sentinels: seq<ListHead>, k: nat)
    requires Shape(h, s, sentinels) && k < |s.locks|
    ensures sentinels[k] in h.next && sentinels[k] !in s.ready
  {
    var w := QueuesOf(s, sentinels)[k];
    SecondInRing(h, w);
    assert sentinels[k] in w && forall y | y in s.ready :: y in [s.cur] + s.ready;
  }

  /** No queues at all have these links any more: the ring of lock k would have to contain the head of
      the ready ring. */
  lemma NoShapeLeft(h: Links, head: Thread, sentinels: seq<ListHead>, k: nat, s': State<Thread>)
    requires k < |sentinels| && sentinels[k] in h.next && h.next[sentinels[k]] == head
    requires Shape(h, s', sentinels)
    ensures s'.ready[0] != head
  {
    var w := QueuesOf(s', sentinels)[k];
    assert LinkedAt(h, w, 0) && w[0] == sentinels[k] && w[After(0, |w|)] in w;
    assert s'.ready[0] in [s'.cur] + s'.ready;
  }

  ghost predicate IsAlone(h: Links, x: ListHead) {
    x in h.next && h.next[x] == x && x in h.prev && h.prev[x] == x
  }

  lemma AloneIsRing(h: Links, x: ListHead)
    requires IsAlone(h, x)
    ensures Ring(h, [x])
  {
    assert LinkedAt(h, [x], 0);
  }

  /** init_thread's rings: the second thread is linked behind the first. */
  lemma AllAlone(h: Links, s: State<Thread>, sentinel: ListHead)
    requires |s.ready| == 2 && s.locks == [Sync(0, 0, [], {}, {})]
    requires IsAlone(h, s.cur) && IsAlone(h, s.ready[0]) && IsAlone(h, s.ready[1]) && IsAlone(h, sentinel)
    requires s.cur !in s.ready && s.ready[0] != s.ready[1] && sentinel !in s.ready && sentinel != s.cur
    ensures s.ready[0] in h.next && Shape(Insert(h, s.ready[1], s.ready[0]), s, [sentinel])
  {
    AloneIsRing(h, s.cur);
    AloneIsRing(h, s.ready[0]);
    AloneIsRing(h, sentinel);
    var q := [s.ready[0]];
    AppendToRing(h, q, s.ready[1]);
    assert q + [s.ready[1]] == s.ready;
    InsertElsewhere(h, q, 0, s.ready[1], [s.cur]);
    InsertElsewhere(h, q, 0, s.ready[1], [sentinel]);
    assert [sentinel] + [] == [sentinel];
    assert QueuesOf(s, [sentinel]) == [[sentinel]];
  }

  lemma NewShape(nodes: set<ListHead>, s: State<Thread>, sentinel: ListHead)
    requires |s.ready| == 2 && s.locks == [Sync(0, 0, [], {}, {})]
    requires s.cur in nodes && s.ready[0] in nodes && s.ready[1] in nodes && sentinel in nodes
    requires forall x | x in nodes :: x.next == x && x.prev == x
    requires s.cur !in s.ready && s.ready[0] != s.ready[1] && sentinel !in s.ready && sentinel != s.cur
    ensures s.ready[0] in LinksOf(nodes).next
    ensures Shape(Insert(LinksOf(nodes), s.ready[1], s.ready[0]), s, [sentinel])
  {
    hide Shape, Insert, LinksOf;
    LinksAt(nodes, s.cur);
    LinksAt(nodes, s.ready[0]);
    LinksAt(nodes, s.ready[1]);
    LinksAt(nodes, sentinel);
    AllAlone(LinksOf(nodes), s, sentinel);
  }

  /** list_add_tail(&test_LOCK2->elem, READY_LIST->prev) */
  method LinkSecond(elem: ListHead, ready_list: ListHead, ghost s: State<Thread>, ghost sentinel: ListHead,
                    ghost nodes: set<ListHead>)
    requires s.ready == [ready_list, elem] && s.locks == [Sync(0, 0, [], {}, {})]
    requires s.cur in nodes && ready_list in nodes && elem in nodes && sentinel in nodes
    requires forall x | x in nodes :: x.next == x && x.prev == x
    requires s.cur !in s.ready && ready_list != elem && sentinel !in s.ready && sentinel != s.cur
    modifies nodes
    ensures Shape(LinksOf(nodes), s, [sentinel])
  {
    hide Shape, LinksOf, Insert;
    NewShape(nodes, s, sentinel);
    ListAddTail(elem, ready_list.prev, nodes);
  }

  lemma SecondInRing(h: Links, q: seq<ListHead>)
    requires Ring(h, q)
    ensures q != [] && (|q| > 1 ==> q[0] != q[1])
    ensures q[0] in h.next && q[0] in h.prev
    ensures h.next[q[0]] == q[if |q| == 1 then 0 else 1] && h.prev[q[0]] == q[|q| - 1]
    ensures h.next[q[0]] in h.next && h.prev[q[0]] in h.next && h.prev[q[0]] in h.prev
    ensures h.next[h.prev[q[0]]] == q[0]
  {
    assert LinkedAt(h, q, 0) && LinkedAt(h, q, After(0, |q|)) && LinkedAt(h, q, |q| - 1);
  }

  // ----- The kernel's globals -----

  /** struct lock and struct sema. */
  class Lock {
    var value: int
    const list: ListHead

    /** get_lock (value 0) and get_sema */
    constructor (value: int)
      ensures this.value == value && fresh(list) && list.next == list && list.prev == list
    {
      this.value := value;
      list := new ListHead();
    }
  }

  class Kernel {
    var ticks: nat
    var READY_LIST: ListHead?
    var READY_THREAD: Thread
    var current_thread: Thread
    const locks: seq<Lock>

    ghost var st: State<Thread>
    ghost var nodes: set<ListHead>

    ghost function Sentinels(): (r: seq<ListHead>)
      ensures |r| == |locks| && forall k | 0 <= k < |r| :: r[k] == locks[k].list
    {
      seq(|locks|, k requires 0 <= k < |locks| => locks[k].list)
    }

    /** init_thread's state: the initial thread running, two others ready, one free lock. */
    ghost predicate AtStart()
      reads this
    {
      && |st.ready| == 2 && st == State(st.ticks, st.cur, st.ready, [Sync(0, 0, [], {}, {})])
      && st.cur != st.ready[0] && st.cur != st.ready[1] && st.ready[0] != st.ready[1]
    }

    /** init_thread, after the timer has counted to `ticks`. */
    constructor InitThread(ticks: nat)
      requires ticks < U32
      ensures Valid() && fresh(nodes) && |locks| == 1 && forall i | 0 <= i < |locks| :: fresh(locks[i])
      ensures AtStart() && st.ticks == ticks && READY_THREAD == st.ready[0]
    {
      var init_struct := new ListHead();
      var test_LOCK1 := new ListHead();
      var test_LOCK2 := new ListHead();
      var test_lock := new Lock(0);
      locks := [test_lock];
      this.ticks := ticks;
      READY_LIST := test_LOCK1;
      current_thread := init_struct;
      READY_THREAD := test_LOCK1;
      nodes := {init_struct, test_LOCK1, test_LOCK2, test_lock.list};
      st := State(ticks, init_struct, [test_LOCK1, test_LOCK2], [Sync(0, 0, [], {}, {})]);
      new;
      hide Shape, LinksOf;
      LinkSecond(test_LOCK2, READY_LIST, st, test_lock.list, nodes);
      assert Sentinels() == [test_lock.list];
    }

    ghost predicate Values()
      reads this, locks
    {
      && |st.locks| == |locks|
      && (forall k | 0 <= k < |locks| :: locks[k].value == st.locks[k].value)
      && (forall j, k | 0 <= j < k < |locks| :: locks[j] != locks[k])
    }

    /** The globals and the links hold exactly the queues and counters of `st`. */
    ghost predicate Valid()
      reads this, locks, nodes
    {
      && ticks == st.ticks < U32
      && Values()
      && current_thread == st.cur
      && Shape(LinksOf(nodes), st, Sentinels())
      && READY_LIST == st.ready[0]
    }

    /** yield_thread; timer_handler repeats its four statements.  The thread that runs next stays
        linked as the head of the ready ring exactly when it was alone there. */
    method YieldThread(ghost ready: seq<Thread>)
      requires Ring(LinksOf(nodes), ready) && READY_LIST == ready[0]
      modifies this`READY_LIST, this`READY_THREAD, this`current_thread, nodes
      ensures current_thread == READY_THREAD == ready[0] && ready[0] in old(LinksOf(nodes)).next
      ensures ready[0] in old(LinksOf(nodes)).prev && LinksOf(nodes) == Delete(old(LinksOf(nodes)), ready[0])
      ensures READY_LIST == if |ready| == 1 then ready[0] else ready[1]
      ensures READY_LIST == current_thread <==> |ready| == 1
    {
      hide Ring, Delete, LinksOf;
      SecondInRing(LinksOf(nodes), ready);
      LinksAt(nodes, ready[0]);
      LinksAt(nodes, ready[|ready| - 1]);
      LinksAt(nodes, ready[if |ready| == 1 then 0 else 1]);
      READY_THREAD := READY_LIST;
      READY_LIST := READY_LIST.next;
      ListDel(READY_THREAD, nodes);
      current_thread := READY_THREAD;
    }

    /** The body of timer_handler's if. */
    method Rotate()
      requires Valid()
      modifies this`READY_LIST, this`READY_THREAD, this`current_thread, this`st, nodes
      ensures Valid() && st == Dispatch(old(st).(ready := old(st).ready + [old(st).cur]))
    {
      hide Shape, Ring, WaitRings, Insert, Delete, LinksOf;
      ghost var h, s := LinksOf(nodes), st;
      ReadyHead(h, s, Sentinels());
      RotateShape(h, s, Sentinels());
      LinksAt(nodes, s.cur);
      LinksAt(nodes, READY_LIST);
      LinksAt(nodes, READY_LIST.prev);
      ListAddTail(current_thread, READY_LIST.prev, nodes);
      YieldThread(s.ready + [s.cur]);
      ghost var h2 := LinksOf(nodes);
      assert Shape(h2, Dispatch(s.(ready := s.ready + [s.cur])), Sentinels());
      st := Dispatch(s.(ready := s.ready + [s.cur]));
      assert LinksOf(nodes) == h2;
    }

    /** timer_handler; before init_thread has set READY_LIST it only counts. */
    method TimerHandler()
      requires ticks < U32 && (READY_LIST != null ==> Valid())
      modifies this`ticks, this`READY_LIST, this`READY_THREAD, this`current_thread, this`st, nodes
      ensures old(READY_LIST) == null ==>
                ticks == (old(ticks) + 1) % U32 && READY_LIST == null && current_thread == old(current_thread)
      ensures old(READY_LIST) != null ==> Valid() && st == DoTick(old(st))
    {
      hide Shape, Ring, WaitRings, LinksOf;
      ghost var h, s := LinksOf(nodes), st;
      if READY_LIST != null {
        ReadyHead(h, s, Sentinels());
        ClockShape(h, s, Sentinels(), (ticks + 1) % U32);
      }
      ticks := (ticks + 1) % U32;
      st := s.(ticks := ticks);
      assert LinksOf(nodes) == h;
      if ticks % 20 == 0 && READY_LIST != null {
        Rotate();
      }
    }

    /** A block by lock k in state `s`, which had a single ready thread, has left that thread current
        and in the ready ring at once; the wait rings are in order. */
    ghost predicate Stale(s: State<Thread>, k: nat)
      reads this, nodes, locks
    {
      && k < |locks| == |s.locks| && |s.ready| == 1 && current_thread == READY_LIST == s.ready[0]
      && Ring(LinksOf(nodes), s.ready)
      && WaitRings(LinksOf(nodes), QueuesOf(s, Sentinels())[k := [locks[k].list] + s.locks[k].wait + [s.cur]], s.ready)
    }

    /** The loop body of lock_acquire and sema_acquire. */
    method Block(k: nat)
      requires Valid() && k < |locks| && locks[k].value < 0
      modifies this`READY_LIST, this`READY_THREAD, this`current_thread, this`st, nodes
      ensures old(|st.ready|) >= 2 ==> Valid() && st == DoAcquire(old(st), k)
      ensures old(|st.ready|) == 1 ==> !Valid() && Stale(old(st), k)
    {
      hide Shape, Ring, WaitRings, Insert, Delete, LinksOf;
      ghost var h, s := LinksOf(nodes), st;
      ReadyHead(h, s, Sentinels());
      if |s.ready| >= 2 {
        BlockShape(h, s, Sentinels(), k);
      } else {
        StaleShape(h, s, Sentinels(), k);
      }
      LinksAt(nodes, s.cur);
      LinksAt(nodes, locks[k].list);
      LinksAt(nodes, locks[k].list.prev);
      ListAddTail(current_thread, locks[k].list.prev, nodes);
      ghost var h1 := Insert(h, s.cur, h.prev[Sentinels()[k]]);
      assert LinksOf(nodes) == h1;
      YieldThread(s.ready);
      ghost var h2 := LinksOf(nodes);
      if |s.ready| >= 2 {
        st := DoAcquire(s, k);
      } else {
        CurrentNotReady();
      }
      assert LinksOf(nodes) == h2;
    }

    /** The running thread is never the head of the ready ring. */
    lemma CurrentNotReady()
      ensures Valid() ==> current_thread != READY_LIST
    {
    }

    /** One pass of the loop of lock_acquire and sema_acquire: wait behind the others and yield, or
        take.  The rings survive exactly when a thread that blocks leaves two ready threads. */
    method AcquirePass(k: nat)
      requires Valid() && k < |locks|
      modifies this`READY_LIST, this`READY_THREAD, this`current_thread, this`st, nodes, locks
      ensures old(locks[k].value >= 0 || |st.ready| >= 2) ==> Valid() && st == DoAcquire(old(st), k)
      ensures old(locks[k].value < 0 && |st.ready| == 1) ==> !Valid() && Stale(old(st), k)
    {
      hide Shape, Ring, WaitRings, LinksOf;
      ReadyHead(LinksOf(nodes), st, Sentinels());
      if locks[k].value < 0 {
        Block(k);
      } else {
        Take(k);
      }
    }

    /** The statement behind the loop of lock_acquire and sema_acquire. */
    method Take(k: nat)
      requires Valid() && k < |locks| && locks[k].value >= 0
      modifies this`st, locks[k]
      ensures Valid() && st == DoAcquire(old(st), k)
    {
      hide Shape, Ring, WaitRings;
      ghost var h, s := LinksOf(nodes), st;
      ReadyHead(h, s, Sentinels());
      TakeShape(h, s, Sentinels(), k);
      locks[k].value := locks[k].value - 1;
      st := DoAcquire(s, k);
      assert LinksOf(nodes) == h;
    }

    /** A release of lock k in state `s` has left the rings of the other locks and a ready ring whose
        last thread is the lock's sentinel, so that they are the rings of no state with all the locks. */
    ghost predicate Broken(s: State<Thread>, k: nat)
      reads this, nodes, locks
    {
      && k < |locks| == |s.locks| && READY_LIST == (s.ready + [locks[k].list])[0]
      && Shape(LinksOf(nodes), Spliced(s, k, locks[k].list), Drop(Sentinels(), k))
      && locks[k].list in nodes && locks[k].list.next == READY_LIST
    }

    lemma BrokenByWake(h: Links, s: State<Thread>, k: nat)
      requires k < |locks| == |s.locks| && Shape(h, s, Sentinels()) && s.locks[k].wait == [] && READY_LIST == s.ready[0]
      requires s.ready[|s.ready| - 1] in h.next
      requires LinksOf(nodes) == Insert(h, locks[k].list, s.ready[|s.ready| - 1])
      ensures Broken(s, k)
    {
      hide Shape, Ring, Insert;
      ReadyHead(h, s, Sentinels());
      EmptyWakeShape(h, s, Sentinels(), k);
      var h' := LinksOf(nodes);
      SentinelIn(h, s, Sentinels(), k);
      InsertedLinks(h, s, locks[k].list);
      LinksAt(nodes, locks[k].list);
    }

    lemma BrokenIsInvalid(s: State<Thread>, k: nat)
      requires Broken(s, k)
      ensures !Valid()
    {
      LinksAt(nodes, locks[k].list);
      if Valid() {
        NoShapeLeft(LinksOf(nodes), READY_LIST, Sentinels(), k, st);
      }
    }

    lemma InsertedLinks(h: Links, s: State<Thread>, x: ListHead)
      requires s.ready != [] && s.ready[|s.ready| - 1] in h.next && h.next[s.ready[|s.ready| - 1]] == s.ready[0]
      requires x != s.ready[|s.ready| - 1]
      ensures var h' := Insert(h, x, s.ready[|s.ready| - 1]); x in h'.next && h'.next[x] == s.ready[0]
    {
    }

    /** The wake-up in a release: the node after the sentinel, whatever it is, becomes the tail of
        the ready ring. */
    method WakeFirst(list: ListHead)
      requires READY_LIST != null && list in nodes && list.next in nodes
      requires list.next.next in nodes && list.next.prev in nodes
      requires var h1 := Delete(LinksOf(nodes), list.next);
        READY_LIST in h1.prev && h1.prev[READY_LIST] in h1.next && h1.next[h1.prev[READY_LIST]] == READY_LIST
      requires READY_LIST in nodes && READY_LIST.prev in nodes
      modifies nodes
      ensures list in old(LinksOf(nodes)).next && old(list.next) in old(LinksOf(nodes)).next
      ensures var h1 := Delete(old(LinksOf(nodes)), old(list.next));
        && READY_LIST in h1.prev && h1.prev[READY_LIST] in h1.next
        && LinksOf(nodes) == Insert(h1, old(list.next), h1.prev[READY_LIST])
    {
      var tmp := list.next;
      ListDel(tmp, nodes);
      ListAddTail(tmp, READY_LIST.prev, nodes);
    }

    /** The body of the if in lock_realse and sema_realse.  The rings survive exactly when there is a
        waiter to wake; without one the sentinel is linked as the last ready thread. */
    method Wake(k: nat)
      requires Valid() && k < |locks|
      modifies this`st, nodes
      ensures old(st).locks[k].wait != [] ==> Valid() && st == WakeOne(old(st), k)
      ensures old(st).locks[k].wait == [] ==> Broken(old(st), k)
    {
      hide Shape, Ring, WaitRings, Insert, Delete, LinksOf;
      ghost var h, s := LinksOf(nodes), st;
      ReadyHead(h, s, Sentinels());
      if s.locks[k].wait == [] {
        EmptyWakeLinksSentinel(h, s, Sentinels(), k);
        EmptyWakeShape(h, s, Sentinels(), k);
      } else {
        WakeShape(h, s, Sentinels(), k);
      }
      LinksAt(nodes, READY_LIST);
      LinksAt(nodes, READY_LIST.prev);
      LinksAt(nodes, locks[k].list);
      LinksAt(nodes, locks[k].list.next);
      LinksAt(nodes, locks[k].list.next.next);
      LinksAt(nodes, locks[k].list.next.prev);
      WakeFirst(locks[k].list);
      if s.locks[k].wait != [] {
        label Linked:
        st := WakeOne(s, k);
        assert LinksOf(nodes) == old@Linked(LinksOf(nodes));
      } else {
        BrokenByWake(h, s, k);
      }
    }

    /** lock_realse and sema_realse */
    method Release(k: nat)
      requires Valid() && k < |locks|
      modifies this`st, nodes, locks
      ensures old(locks[k].value < -1 || st.locks[k].wait != []) ==> Valid() && st == DoRelease(old(st), k)
      ensures old(locks[k].value >= -1 && st.locks[k].wait == []) ==> !Valid() && Broken(old(st), k)
    {
      hide Shape, Ring, WaitRings;
      ghost var h, s := LinksOf(nodes), st;
      ReadyHead(h, s, Sentinels());
      CountShape(h, s, Sentinels(), k);
      locks[k].value := locks[k].value + 1;
      st := CountUp(s, k);
      assert LinksOf(nodes) == h;
      if locks[k].value >= 0 {
        Wake(k);
        if s.locks[k].wait == [] {
          BrokenIsInvalid(CountUp(s, k), k);
        }
      }
    }

    /** Whether the rings are as a step needs them, read off the pointers. */
    method Survives(step: Step) returns (r: bool)
      requires Valid() && Allowed(st, step)
      ensures r <==> RingsReady(st, step)
    {
      hide Shape, Ring, WaitRings, LinksOf;
      ghost var h := LinksOf(nodes);
      ReadyHead(h, st, Sentinels());
      match step {
        case Tick => return true;
        case Acquire(k) =>
          AloneMeansEmpty(h, st, Sentinels(), k);
          LinksAt(nodes, READY_LIST);
          return locks[k].value >= 0 || READY_LIST.next != READY_LIST;
        case Release(k) =>
          AloneMeansEmpty(h, st, Sentinels(), k);
          LinksAt(nodes, locks[k].list);
          return locks[k].value < -1 || locks[k].list.next != locks[k].list;
      }
    }

    method Perform(step: Step)
      requires Valid() && Allowed(st, step)
      modifies this, nodes, locks
      ensures nodes == old(nodes)
      ensures old(RingsReady(st, step)) ==> Enabled(old(st), step) && Valid() && st == Do(old(st), step)
      ensures old(!RingsReady(st, step)) ==> !Valid() && RingsLost(old(st), step)
    {
      hide Shape, Ring, WaitRings, LinksOf;
      ReadyHead(LinksOf(nodes), st, Sentinels());
      match step {
        case Tick => TimerHandler();
        case Acquire(k) => AcquirePass(k);
        case Release(k) => Release(k);
      }
    }

    /** What a step that did not find the rings as it needs them has left. */
    ghost predicate RingsLost(s: State<Thread>, step: Step)
      reads this, nodes, locks
    {
      match step
      case Tick => false
      case Acquire(k) => Stale(s, k)
      case Release(k) => Broken(s, k)
    }

    /** Any run of allowed steps, however timer interrupts, acquires and releases are mixed, leaves the
        pointers and counters exactly as the state machine says, up to the first step that does not
        find the rings as it needs them; that one destroys them. */
    method Execute(steps: seq<Step>) returns (n: nat)
      requires Valid() && AllowedRun(st, steps)
      modifies this, nodes, locks
      ensures nodes == old(nodes) && n <= |steps| && Legal(old(st), steps[..n])
      ensures n == |steps| ==> Valid() && st == Run(old(st), steps[..n])
      ensures n < |steps| ==> !RingsReady(Run(old(st), steps[..n]), steps[n])
      ensures n < |steps| ==> !Valid() && RingsLost(Run(old(st), steps[..n]), steps[n])
    {
      hide Allowed, RingsReady, Do, RingsLost;
      n := 0;
      while n < |steps|
        invariant 0 <= n <= |steps| && nodes == old(nodes)
        invariant Legal(old(st), steps[..n]) && Valid() && st == Run(old(st), steps[..n])
        invariant AllowedRun(st, steps[n..])
      {
        assert steps[n..][1..] == steps[n + 1..];
        var survives := Survives(steps[n]);
        Perform(steps[n]);
        if !survives {
          return;
        }
        RunOneMore(old(st), steps[..n], steps[n]);
        assert steps[..n] + [steps[n]] == steps[..n + 1];
        n := n + 1;
      }
    }

    /** In a run of unnested use a thread that blocks always leaves two ready threads: only a release
        that finds no waiter ends it early.  So far, the invariants hold. */
    method ExecuteUnnested(steps: seq<Step>, ghost threads: set<Thread>, ghost idle: Thread) returns (n: nat)
      requires Valid() && Inv(st, threads) && UnnestedInv(st, idle) && UnnestedRun(st, idle, steps)
      modifies this, nodes, locks
      ensures n <= |steps| && Legal(old(st), steps[..n]) && Inv(Run(old(st), steps[..n]), threads)
      ensures n == |steps| ==> Valid() && st == Run(old(st), steps[..n])
      ensures n < |steps| ==> steps[n].Release? && steps[n].k < |Run(old(st), steps[..n]).locks|
      ensures n < |steps| ==> Run(old(st), steps[..n]).locks[steps[n].k].wait == []
      ensures n < |steps| ==> !Valid() && Broken(Run(old(st), steps[..n]), steps[n].k)
    {
      ghost var s := st;
      UnnestedIsAllowed(s, idle, steps);
      n := Execute(steps);
      if n < |steps| {
        UnnestedPrefix(s, threads, idle, steps, n);
      }
      RunKeepsInv(s, threads, steps[..n]);
    }

    /** From init_thread's state on, in any run in which the initial thread never acquires and nobody
        acquires the lock again while holding it. */
    method ExecuteFromStart(steps: seq<Step>) returns (n: nat)
      requires Valid() && AtStart() && UnnestedRun(st, st.cur, steps)
      modifies this, nodes, locks
      ensures n <= |steps| && Legal(old(st), steps[..n])
      ensures Placed(Run(old(st), steps[..n]), {old(st.cur), old(st.ready[0]), old(st.ready[1])})
      ensures |Run(old(st), steps[..n]).locks| == 1 && |Run(old(st), steps[..n]).locks[0].holders| <= 1
      ensures n == |steps| ==> Valid() && st == Run(old(st), steps[..n])
      ensures n < |steps| ==> steps[n] == Step.Release(0) && !Valid() && Broken(Run(old(st), steps[..n]), 0)
    {
      ghost var idle, a, b := st.cur, st.ready[0], st.ready[1];
      ghost var s := st;
      assert st.ready == [a, b];
      InitIsStart(st.ticks, idle, a, b);
      StartIsInv(st, {idle, a, b});
      n := ExecuteUnnested(steps, {idle, a, b}, idle);
      Reachable(s, {idle, a, b}, steps[..n]);
    }
  }

  /** One ready thread or no waiter show as a node linked to itself. */
  lemma AloneMeansEmpty(h: Links, s: State<Thread>, sentinels: seq<ListHead>, k: nat)
    requires Shape(h, s, sentinels) && k < |s.locks|
    ensures s.ready[0] in h.next && (h.next[s.ready[0]] == s.ready[0] <==> |s.ready| == 1)
    ensures sentinels[k] in h.next && (h.next[sentinels[k]] == sentinels[k] <==> s.locks[k].wait == [])
  {
    SecondInRing(h, s.ready);
    SecondInRing(h, QueuesOf(s, sentinels)[k]);
  }

  lemma ClockShape(h: Links, s: State<Thread>, sentinels: seq<ListHead>, ticks: nat)
    requires Shape(h, s, sentinels)
    ensures Shape(h, s.(ticks := ticks), sentinels)
  {
    assert QueuesOf(s.(ticks := ticks), sentinels) == QueuesOf(s, sentinels);
  }
}
