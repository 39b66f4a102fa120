/** The binary semaphore of a FIFO as a value: its flag and its queue of waiting tasks
    (fifos/rtai_fifos.c:168-279, 495-519).
  */
module SemaphoreSpec {

  datatype Option<T> = None | Some(value: T)

  /** A queued task; ticket counts the calls of mbx_sem_wait and records who came first. */
  datatype Waiter = Waiter(id: nat, priority: int, ticket: nat)

  datatype Sem = Sem(free: bool, queue: seq<Waiter>)

  /** enqueue_blocked with qtype 0: behind every task of at least the same priority. */
  function Enqueued(queue: seq<Waiter>, w: Waiter): (q: seq<Waiter>)
    ensures |q| == |queue| + 1
  {
    if queue != [] && queue[0].priority >= w.priority then [queue[0]] + Enqueued(queue[1..], w)
    else [w] + queue
  }

  /** mbx_sem_wait up to the point where the task would sleep. */
  function Wait(s: Sem, w: Waiter): Sem {
    if s.free then s.(free := false) else s.(queue := Enqueued(s.queue, w))
  }

  /** mbx_sem_wait_if */
  function WaitIf(s: Sem): (Sem, bool) {
    if s.free then (s.(free := false), true) else (s, false)
  }

  /** mbx_sem_signal: the head of the queue gets the semaphore, or it becomes free. */
  function Signal(s: Sem): (Sem, Option<nat>) {
    if s.queue != [] then (s.(queue := s.queue[1..]), Some(s.queue[0].id))
    else (s.(free := true), None)
  }

  /** Lines 264-268: the waiter at place i leaves the queue, and the semaphore is set free
      when nobody is left in it. */
  function LeftQueue(s: Sem, i: nat): Sem
    requires i < |s.queue|
  {
    var rest := s.queue[..i] + s.queue[i + 1..];
    Sem(if rest == [] then true else s.free, rest)
  }

  /** mbx_sem_delete: nobody is left in the queue, and the flag is not touched. */
  function Delete(s: Sem): Sem {
    s.(queue := [])
  }

  /** Lines 264-268 for a task that mbx_sem_delete has taken off the queue: the head is made to
      lead on to the records behind it, and the semaphore is set free when there are none. */
  function LeftDeleted(s: Sem, behind: seq<Waiter>): Sem {
    Sem(s.free || behind == [], behind)
  }

  /** Those who wait behind r. */
  function Behind(queue: seq<Waiter>, r: Waiter): seq<Waiter> {
    if queue == [] then []
    else if queue[0] == r then queue[1..]
    else Behind(queue[1..], r)
  }

  // ----- runs -----

  /** The semaphore among its users: which tasks own it, which of these are still in
      mbx_sem_wait, which records wait, and how many waits there have been. dismissed holds
      the waiters that mbx_sem_delete has woken and that have not left yet, each with the
      records its next link leads through. The queue of sem is what its head leads through. */
  datatype World = World(sem: Sem, holders: set<nat>, waking: set<nat>, waiters: set<Waiter>,
                         dismissed: map<Waiter, seq<Waiter>>, clock: nat)

  datatype Event =
    | DoWait(id: nat, priority: int)
    | DoWaitIf(id: nat)
    | DoSignal(id: nat)
    | DoReturn(id: nat)    // mbx_sem_wait returns to a task that was handed the semaphore
    | DoGiveUp(i: nat)     // it fails for the task at place i of the queue
    | DoAbandon(id: nat)   // it fails for a task that was handed the semaphore, lines 260-262
    | DoDelete             // mbx_sem_delete
    | DoLeave(r: Waiter)   // it fails for a task that mbx_sem_delete has dismissed

  /** A task neither owning nor waiting may ask for the semaphore; an owner that has
      returned from its wait may signal. While the head leads to dismissed tasks nobody queues,
      and waits fail only for tasks that are in the queue, were handed the semaphore or were
      dismissed. */
  predicate Enabled(w: World, e: Event) {
    match e
    case DoWait(id, _) => id !in w.holders && !Waiting(w, id) && (w.sem.free || Sound(w))
    case DoWaitIf(id) => id !in w.holders && !Waiting(w, id)
    case DoSignal(id) => id in w.holders && id !in w.waking
    case DoReturn(id) => id in w.waking
    case DoGiveUp(i) => i < |w.sem.queue| && Sound(w)
    case DoAbandon(id) => id in w.waking
    case DoDelete => true
    case DoLeave(r) => r in w.dismissed
  }

  predicate Queued(queue: seq<Waiter>, id: nat) {
    exists i :: 0 <= i < |queue| && queue[i].id == id
  }

  /** A task in mbx_sem_wait that does not own the semaphore. */
  predicate Waiting(w: World, id: nat) {
    (exists r :: r in w.waiters && r.id == id) || (exists r :: r in w.dismissed && r.id == id)
  }

  /** The queue leads to waiting tasks only. */
  predicate Sound(w: World) {
    forall r :: r in w.sem.queue ==> r in w.waiters
  }

  function After(w: World, e: Event): World
    requires Enabled(w, e)
  {
    match e
    case DoWait(id, priority) =>
      var r := Waiter(id, priority, w.clock);
      var sem := Wait(w.sem, r);
      if w.sem.free then w.(sem := sem, holders := w.holders + {id}, clock := w.clock + 1)
      else w.(sem := sem, waiters := w.waiters + {r}, clock := w.clock + 1)
    case DoWaitIf(id) =>
      var (sem, acquired) := WaitIf(w.sem);
      w.(sem := sem, holders := if acquired then w.holders + {id} else w.holders)
    case DoSignal(id) => AfterSignal(w, id)
    case DoReturn(id) => w.(waking := w.waking - {id})
    case DoGiveUp(i) => w.(sem := LeftQueue(w.sem, i), waiters := w.waiters - {w.sem.queue[i]})
    case DoAbandon(id) => w.(holders := w.holders - {id}, waking := w.waking - {id})
    case DoDelete =>
      var woken := map r | r in w.sem.queue && r in w.waiters :: Behind(w.sem.queue, r);
      w.(sem := Delete(w.sem), waiters := w.waiters - woken.Keys, dismissed := w.dismissed + woken)
    case DoLeave(r) => w.(sem := LeftDeleted(w.sem, w.dismissed[r]), dismissed := w.dismissed - {r})
  }

  /** The semaphore goes to the first task of the queue, if that one is still there to get it. */
  function AfterSignal(w: World, id: nat): World {
    var (sem, _) := Signal(w.sem);
    if w.sem.queue == [] then w.(sem := sem, holders := w.holders - {id})
    else
      var r := w.sem.queue[0];
      var handed := if r in w.waiters || r in w.dismissed then {r.id} else {};
      World(sem, w.holders - {id} + handed, w.waking + handed, w.waiters - {r}, w.dismissed - {r}, w.clock)
  }

  const START := World(Sem(true, []), {}, {}, {}, map[], 0)

  /** w is reached from a new semaphore of value 1 by the events, each enabled in turn. */
  ghost predicate Run(events: seq<Event>, w: World) {
    if events == [] then w == START
    else
      var n := |events| - 1;
      exists before :: Run(events[..n], before) && Enabled(before, events[n]) && w == After(before, events[n])
  }

  /** Not a failed wait, or one that leaves the queue and another waiter in it, or one of the
      last task dismissed, from a free semaphore. */
  predicate Orderly(w: World, e: Event)
    requires Enabled(w, e)
  {
    match e
    case DoGiveUp(_) => |w.sem.queue| > 1
    case DoAbandon(_) => false
    case DoLeave(r) => w.sem.free && w.dismissed[r] == []
    case _ => true
  }

  ghost predicate OrderlyRun(events: seq<Event>, w: World) {
    if events == [] then w == START
    else
      var n := |events| - 1;
      exists before ::
        && OrderlyRun(events[..n], before) && Enabled(before, events[n]) && Orderly(before, events[n])
        && w == After(before, events[n])
  }

  /** a is served before b: higher priority, or the same priority and an earlier arrival. */
  predicate Before(a: Waiter, b: Waiter) {
    a.priority > b.priority || (a.priority == b.priority && a.ticket < b.ticket)
  }

  predicate Ordered(queue: seq<Waiter>) {
    forall i, j :: 0 <= i < j < |queue| ==> Before(queue[i], queue[j])
  }

  predicate Distinct(queue: seq<Waiter>) {
    forall i, j :: 0 <= i < j < |queue| ==> queue[i].id != queue[j].id
  }

  /** The semaphore is free or owned by one task that is still in its call, never both. */
  predicate OneOwner(w: World) {
    |w.holders| + (if w.sem.free then 1 else 0) == 1
  }

  /** The queue leads to all who wait and to nobody else. */
  ghost predicate Intact(w: World) {
    forall r :: r in w.waiters <==> r in w.sem.queue
  }

  /** A dismissed task is in no other role, and the records its link leads through wait no more. */
  ghost predicate Dismissals(w: World) {
    forall r :: r in w.dismissed ==>
      && r.id !in w.holders && (forall q :: q in w.waiters ==> q.id != r.id)
      && (forall q :: q in w.dismissed[r] ==> q !in w.waiters && q.ticket < w.clock)
  }

  /** Whoever waits is in the queue, by priority and arrival. */
  ghost predicate QueueInv(w: World) {
    && Intact(w) && Ordered(w.sem.queue) && Distinct(w.sem.queue) && Dismissals(w)
    && (forall r :: r in w.sem.queue ==> r.ticket < w.clock && r.id !in w.holders)
  }

  ghost predicate Invariant(w: World) {
    OneOwner(w) && w.waking <= w.holders && (w.sem.free ==> w.sem.queue == []) && QueueInv(w)
  }

  /** Enqueueing is insertion at one place. */
  lemma {:induction false} EnqueuedInserts(queue: seq<Waiter>, w: Waiter) returns (k: nat)
    ensures k <= |queue| && Enqueued(queue, w) == queue[..k] + [w] + queue[k..]
  {
    if queue != [] && queue[0].priority >= w.priority {
      var j := EnqueuedInserts(queue[1..], w);
      k := j + 1;
      assert queue == [queue[0]] + queue[1..];
    } else {
      k := 0;
    }
  }

  /** In a queue ordered by priority, those ahead have at least its priority, those
      behind have less. */
  lemma {:induction false} EnqueuedSplits(queue: seq<Waiter>, w: Waiter) returns (k: nat)
    requires forall i, j :: 0 <= i < j < |queue| ==> queue[i].priority >= queue[j].priority
    ensures k <= |queue| && Enqueued(queue, w) == queue[..k] + [w] + queue[k..]
    ensures forall i :: 0 <= i < k ==> queue[i].priority >= w.priority
    ensures forall i :: k <= i < |queue| ==> queue[i].priority < w.priority
  {
    if queue != [] && queue[0].priority >= w.priority {
      var j := EnqueuedSplits(queue[1..], w);
      k := j + 1;
      assert queue == [queue[0]] + queue[1..];
      assert queue[..k] == [queue[0]] + queue[1..][..j];
      forall i | 0 <= i < k ensures queue[i].priority >= w.priority {
        if i > 0 { assert queue[i] == queue[1..][i - 1]; }
      }
      forall i | k <= i < |queue| ensures queue[i].priority < w.priority {
        assert queue[i] == queue[1..][i - 1];
      }
    } else {
      k := 0;
      assert queue[..0] + [w] + queue[0..] == [w] + queue;
      forall i | 0 <= i < |queue| ensures queue[i].priority < w.priority {
        if i > 0 { assert queue[0].priority >= queue[i].priority; }
      }
    }
  }

  /** Putting one element between two parts of a queue. */
  lemma InsertedKeepsOrder(a: seq<Waiter>, w: Waiter, b: seq<Waiter>)
    requires Ordered(a + b) && Distinct(a + b)
    requires forall i :: 0 <= i < |a| ==> Before(a[i], w) && a[i].id != w.id
    requires forall i :: 0 <= i < |b| ==> Before(w, b[i]) && b[i].id != w.id
    ensures Ordered(a + [w] + b) && Distinct(a + [w] + b)
  {
    var q, e, k := a + b, a + [w] + b, |a|;
    forall i, j | 0 <= i < j < |e| ensures Before(e[i], e[j]) && e[i].id != e[j].id {
      if i != k && j != k {
        var i', j' := if i < k then i else i - 1, if j < k then j else j - 1;
        assert e[i] == q[i'] && e[j] == q[j'];
      }
    }
  }

  lemma EnqueuedKeepsOrder(queue: seq<Waiter>, w: Waiter)
    requires Ordered(queue) && Distinct(queue) && forall r :: r in queue ==> r.id != w.id && r.ticket < w.ticket
    ensures Ordered(Enqueued(queue, w)) && Distinct(Enqueued(queue, w))
    ensures forall r :: r in Enqueued(queue, w) <==> r == w || r in queue
  {
    var k := EnqueuedSplits(queue, w);
    assert queue[..k] + queue[k..] == queue;
    InsertedKeepsOrder(queue[..k], w, queue[k..]);
  }

  lemma WaitKeepsQueue(w: World, id: nat, priority: int)
    requires QueueInv(w) && Enabled(w, DoWait(id, priority))
    ensures QueueInv(After(w, DoWait(id, priority)))
  {
    if !w.sem.free {
      EnqueuedKeepsOrder(w.sem.queue, Waiter(id, priority, w.clock));
    }
  }

  lemma SignalKeepsQueue(w: World, id: nat)
    requires QueueInv(w) && Enabled(w, DoSignal(id))
    ensures QueueInv(After(w, DoSignal(id)))
  {
    var q := w.sem.queue;
    if q != [] {
      assert q[0] in w.waiters;
      assert forall r :: r in q[1..] <==> r in q && r != q[0];
    }
  }

  lemma GiveUpKeepsQueue(w: World, i: nat)
    requires QueueInv(w) && Enabled(w, DoGiveUp(i))
    ensures QueueInv(After(w, DoGiveUp(i)))
  {
    var q := w.sem.queue;
    var rest := q[..i] + q[i + 1..];
    forall a | 0 <= a < |rest| ensures rest[a] == q[if a < i then a else a + 1] {}
    assert forall r :: r in rest <==> r in q && r != q[i];
  }

  lemma {:induction false} BehindIsQueued(queue: seq<Waiter>, r: Waiter)
    ensures forall q :: q in Behind(queue, r) ==> q in queue
  {
    if queue != [] && queue[0] != r {
      BehindIsQueued(queue[1..], r);
    }
  }

  lemma DeleteKeepsQueue(w: World)
    requires QueueInv(w)
    ensures QueueInv(After(w, DoDelete))
  {
    forall r | r in w.sem.queue
      ensures forall q :: q in Behind(w.sem.queue, r) ==> q in w.sem.queue
    {
      BehindIsQueued(w.sem.queue, r);
    }
  }

  /** A dismissed task leaves: the head leads to the records behind it, none of which waits. */
  lemma LeaveKeepsQueue(w: World, r: Waiter)
    requires QueueInv(w) && r in w.dismissed
    ensures QueueInv(After(w, DoLeave(r))) <==> Intact(After(w, DoLeave(r)))
    ensures Intact(After(w, DoLeave(r))) <==> w.sem.queue == [] && w.dismissed[r] == []
    ensures forall q :: q in w.waiters ==> q !in After(w, DoLeave(r)).sem.queue
  {
    if w.dismissed[r] != [] {
      assert w.dismissed[r][0] in After(w, DoLeave(r)).sem.queue;
    } else if w.sem.queue != [] {
      assert w.sem.queue[0] in w.waiters;
    }
  }

  /** Each event keeps the queue in order, except that a dismissed task that leaves does so if
      and only if it was the last of those dismissed with it and nobody has queued since. */
  lemma StepKeepsQueue(w: World, e: Event)
    requires QueueInv(w) && Enabled(w, e)
    ensures QueueInv(After(w, e)) <==> (e.DoLeave? ==> w.sem.queue == [] && w.dismissed[e.r] == [])
  {
    match e
    case DoWait(id, priority) => WaitKeepsQueue(w, id, priority);
    case DoWaitIf(id) =>
    case DoSignal(id) => SignalKeepsQueue(w, id);
    case DoReturn(_) =>
    case DoGiveUp(i) => GiveUpKeepsQueue(w, i);
    case DoAbandon(_) =>
    case DoDelete => DeleteKeepsQueue(w);
    case DoLeave(r) => LeaveKeepsQueue(w, r);
  }

  lemma OneHolder(w: World, id: nat)
    requires OneOwner(w) && id in w.holders
    ensures w.holders == {id} && !w.sem.free
  {
    assert |w.holders - {id}| == 0;
  }

  lemma SignalKeepsOwner(w: World, id: nat)
    requires Invariant(w) && Enabled(w, DoSignal(id))
    ensures var w' := After(w, DoSignal(id));
            && w'.holders == (if w.sem.queue == [] then {} else {w.sem.queue[0].id})
            && OneOwner(w') && w'.waking <= w'.holders
  {
    OneHolder(w, id);
    var w' := After(w, DoSignal(id));
    if w.sem.queue != [] {
      assert w.sem.queue[0] in w.waiters;
      assert w'.holders == {w.sem.queue[0].id};
    } else {
      assert w'.holders == {};
    }
  }

  /** What a failed wait does. There is one owner afterwards exactly if another task stays in
      the queue, for a task that gives up, or if the semaphore was free already or others were
      dismissed behind it, for one that was dismissed; otherwise the semaphore is free with an
      owner. A task that was already handed the semaphore leaves it taken with no owner in its
      call. A dismissed task that leaves cuts off all who have queued since. */
  lemma FailedWaits(w: World, e: Event)
    requires Invariant(w) && Enabled(w, e) && (e.DoGiveUp? || e.DoAbandon? || e.DoLeave?)
    ensures Invariant(After(w, e)) <==> Orderly(w, e)
    ensures e.DoGiveUp? ==>
              && QueueInv(After(w, e)) && (OneOwner(After(w, e)) <==> |w.sem.queue| > 1)
              && (|w.sem.queue| == 1 ==> After(w, e).sem.free && |After(w, e).holders| == 1)
    ensures e.DoAbandon? ==> Orphaned(After(w, e)) && After(w, e).sem == w.sem
    ensures e.DoLeave? ==>
              && (QueueInv(After(w, e)) <==> w.sem.queue == [] && w.dismissed[e.r] == [])
              && (OneOwner(After(w, e)) <==> w.sem.free || w.dismissed[e.r] != [])
              && After(w, e).holders == w.holders
              && forall q :: q in w.waiters ==> q !in After(w, e).sem.queue
  {
    StepKeepsQueue(w, e);
    match e
    case DoGiveUp(i) =>
    case DoAbandon(id) => OneHolder(w, id);
    case DoLeave(r) => LeaveKeepsQueue(w, r);
  }

  /** Each event keeps the invariant, except the failed waits described above. */
  lemma StepKeepsInvariant(w: World, e: Event)
    requires Invariant(w) && Enabled(w, e)
    ensures Invariant(After(w, e)) <==> Orderly(w, e)
  {
    StepKeepsQueue(w, e);
    match e
    case DoWait(_, _) =>
      if w.sem.free {
        assert w.holders == {};
      }
    case DoWaitIf(_) =>
      if w.sem.free {
        assert w.holders == {};
      }
    case DoSignal(id) => SignalKeepsOwner(w, id);
    case DoReturn(_) =>
    case DoGiveUp(_) => FailedWaits(w, e);
    case DoAbandon(_) => FailedWaits(w, e);
    case DoDelete =>
    case DoLeave(_) => FailedWaits(w, e);
  }

  /** Mutual exclusion and ordering over every run. */
  lemma {:induction false} RunKeepsInvariant(events: seq<Event>, w: World)
    requires OrderlyRun(events, w)
    ensures Invariant(w)
    decreases |events|
  {
    if events != [] {
      var n := |events| - 1;
      var before :|
        && OrderlyRun(events[..n], before) && Enabled(before, events[n]) && Orderly(before, events[n])
        && w == After(before, events[n]);
      RunKeepsInvariant(events[..n], before);
      StepKeepsInvariant(before, events[n]);
    }
  }

  // ----- what the tasks asked for -----

  /** The calls of mbx_sem_wait in a run, in their order. */
  function Waits(events: seq<Event>): seq<Event> {
    if events == [] then []
    else
      var n := |events| - 1;
      Waits(events[..n]) + if events[n].DoWait? then [events[n]] else []
  }

  /** The record of a task that waits is that of one of these calls. */
  predicate Recorded(waits: seq<Event>, r: Waiter) {
    r.ticket < |waits| && waits[r.ticket] == DoWait(r.id, r.priority)
  }

  /** A record that the queue, a dismissed task or the world itself knows of. */
  ghost predicate Known(w: World, r: Waiter) {
    || r in w.waiters || r in w.sem.queue || r in w.dismissed
    || exists d :: d in w.dismissed && r in w.dismissed[d]
  }

  /** Every record in the world is of a call in the run: with the identity and the priority of
      its task, and with the number of the call as its ticket. */
  lemma {:induction false} WaitersAsked(events: seq<Event>, w: World)
    requires Run(events, w)
    ensures w.clock == |Waits(events)|
    ensures forall r :: Known(w, r) ==> Recorded(Waits(events), r)
    decreases |events|
  {
    if events != [] {
      var n := |events| - 1;
      var before :| Run(events[..n], before) && Enabled(before, events[n]) && w == After(before, events[n]);
      WaitersAsked(events[..n], before);
      forall r | Known(w, r) ensures Recorded(Waits(events), r) {
        NewRecords(before, events[n], r);
      }
    }
  }

  lemma {:induction false} EnqueuedMembers(queue: seq<Waiter>, w: Waiter)
    ensures forall r :: r in Enqueued(queue, w) <==> r == w || r in queue
  {
    var k := EnqueuedInserts(queue, w);
    assert queue == queue[..k] + queue[k..];
  }

  /** Only mbx_sem_wait makes a new record: of its caller. */
  lemma NewRecords(w: World, e: Event, r: Waiter)
    requires Enabled(w, e) && Known(After(w, e), r)
    ensures Known(w, r) || (e.DoWait? && r == Waiter(e.id, e.priority, w.clock))
    ensures After(w, e).clock == w.clock + if e.DoWait? then 1 else 0
  {
    match e
    case DoWait(id, priority) => EnqueuedMembers(w.sem.queue, Waiter(id, priority, w.clock));
    case DoDelete =>
      if d :| d in After(w, e).dismissed && r in After(w, e).dismissed[d] {
        BehindIsQueued(w.sem.queue, d);
      }
    case _ =>
  }

  lemma {:induction false} OrderlyIsRun(events: seq<Event>, w: World)
    requires OrderlyRun(events, w)
    ensures Run(events, w)
    decreases |events|
  {
    if events != [] {
      var n := |events| - 1;
      var before :|
        && OrderlyRun(events[..n], before) && Enabled(before, events[n]) && Orderly(before, events[n])
        && w == After(before, events[n]);
      OrderlyIsRun(events[..n], before);
    }
  }

  /** Call i is to be served before call j: of higher priority, or of the same and earlier. */
  predicate ServedFirst(waits: seq<Event>, i: nat, j: nat) {
    && i < |waits| && j < |waits| && waits[i].DoWait? && waits[j].DoWait?
    && (waits[i].priority > waits[j].priority || (waits[i].priority == waits[j].priority && i < j))
  }

  lemma HeadIsFirst(waits: seq<Event>, w: World, r: Waiter)
    requires QueueInv(w) && r in w.waiters && r != w.sem.queue[0]
    requires forall q :: q in w.waiters ==> Recorded(waits, q)
    ensures ServedFirst(waits, w.sem.queue[0].ticket, r.ticket)
  {
    var i :| 0 <= i < |w.sem.queue| && w.sem.queue[i] == r;
    assert Before(w.sem.queue[0], w.sem.queue[i]);
    assert w.sem.queue[0] in w.waiters;
  }

  /** Each signal hands the semaphore to a task that waits, and to the one that is to be served
      first by the priorities the tasks have called with. */
  lemma SignalServesFirst(events: seq<Event>, w: World, id: nat)
    returns (first: Waiter)
    requires OrderlyRun(events, w) && Enabled(w, DoSignal(id)) && w.waiters != {}
    ensures first in w.waiters && Recorded(Waits(events), first)
    ensures After(w, DoSignal(id)).holders == {first.id} && !After(w, DoSignal(id)).sem.free
    ensures After(w, DoSignal(id)).waiters == w.waiters - {first}
    ensures forall r :: r in w.waiters && r != first ==>
              Recorded(Waits(events), r) && ServedFirst(Waits(events), first.ticket, r.ticket)
  {
    RunKeepsInvariant(events, w);
    assert forall r :: r in w.waiters ==> Recorded(Waits(events), r) by {
      OrderlyIsRun(events, w);
      WaitersAsked(events, w);
      assert forall r :: r in w.waiters ==> Known(w, r);
    }
    first := SignalServesHead(w, id);
    forall r | r in w.waiters && r != first ensures ServedFirst(Waits(events), first.ticket, r.ticket) {
      HeadIsFirst(Waits(events), w, r);
    }
  }

  lemma SignalServesHead(w: World, id: nat) returns (first: Waiter)
    requires Invariant(w) && Enabled(w, DoSignal(id)) && w.waiters != {}
    ensures w.sem.queue != [] && first == w.sem.queue[0] && first in w.waiters
    ensures After(w, DoSignal(id)).holders == {first.id} && !After(w, DoSignal(id)).sem.free
    ensures After(w, DoSignal(id)).waiters == w.waiters - {first}
  {
    OneHolder(w, id);
    SignalKeepsOwner(w, id);
    var r :| r in w.waiters;
    assert r in w.sem.queue;
    first := w.sem.queue[0];
  }

  /** Who asks for the semaphore gets it at once if and only if it is free; otherwise the task
      waits, or is refused by mbx_sem_wait_if. */
  lemma AskingForIt(w: World, id: nat, priority: int)
    requires Enabled(w, DoWaitIf(id))
    ensures var w' := After(w, DoWaitIf(id)); !w'.sem.free && (id in w'.holders <==> w.sem.free)
    ensures !w.sem.free ==> After(w, DoWaitIf(id)) == w
    ensures Enabled(w, DoWait(id, priority)) ==>
              var w' := After(w, DoWait(id, priority));
              && !w'.sem.free && (id in w'.holders <==> w.sem.free) && (Waiting(w', id) <==> !w.sem.free)
  {
    if !w.sem.free && Enabled(w, DoWait(id, priority)) {
      assert Waiter(id, priority, w.clock) in After(w, DoWait(id, priority)).waiters;
    }
  }

  /** A task that neither owns the semaphore nor waits may ask for it. */
  lemma OutsidersMayAsk(w: World, id: nat, priority: int)
    requires QueueInv(w)
    ensures Enabled(w, DoWait(id, priority)) <==> id !in w.holders && !Waiting(w, id)
    ensures Enabled(w, DoWaitIf(id)) <==> id !in w.holders && !Waiting(w, id)
  {}

  /** A task that was handed the semaphore may give it on as soon as its wait has returned. */
  lemma ReturnedMaySignal(w: World, id: nat)
    requires Invariant(w) && Enabled(w, DoReturn(id))
    ensures var w' := After(w, DoReturn(id));
            w' == w.(waking := w'.waking) && Enabled(w', DoSignal(id))
  {}

  // ----- after a failed wait -----

  /** Taken, but no task in its call owns it. */
  predicate Orphaned(w: World) {
    !w.sem.free && w.holders == {} && w.waking == {}
  }

  /** Nobody can signal an orphaned semaphore. It stays taken until a wait fails that leaves
      nobody behind: of the only task in the queue, or of the last one dismissed. */
  lemma OrphanedStays(w: World, e: Event)
    requires Orphaned(w) && Enabled(w, e)
    ensures Orphaned(After(w, e)) <==>
              !(e.DoGiveUp? && |w.sem.queue| == 1) && !(e.DoLeave? && w.dismissed[e.r] == [])
    ensures !e.DoSignal? && !e.DoReturn? && !e.DoAbandon?
  {}

  // ----- after mbx_sem_delete -----

  /** Different tasks that are yet to leave. */
  predicate Leavers(w: World, rs: seq<Waiter>) {
    (forall r :: r in rs ==> r in w.dismissed) && forall i, j :: 0 <= i < j < |rs| ==> rs[i] != rs[j]
  }

  /** They leave one after the other. */
  function LeaveAll(w: World, rs: seq<Waiter>): World {
    if rs == [] then w else Leave(LeaveAll(w, rs[..|rs| - 1]), rs[|rs| - 1])
  }

  function Leave(w: World, r: Waiter): World {
    if r in w.dismissed then After(w, DoLeave(r)) else w
  }

  /** w' is w after some of its dismissed tasks have left, last of all this one. */
  predicate HaveLeft(w: World, w': World, last: Waiter) {
    && last in w.dismissed && last !in w'.dismissed && w'.sem.queue == w.dismissed[last]
    && w' == w.(sem := w'.sem, dismissed := w'.dismissed)
    && forall r :: r in w'.dismissed ==> r in w.dismissed && w'.dismissed[r] == w.dismissed[r]
  }

  /** One more leaves. */
  lemma OneMoreLeaves(w: World, w': World, last: Waiter, r: Waiter)
    requires HaveLeft(w, w', last) && r in w'.dismissed
    ensures HaveLeft(w, Leave(w', r), r)
    ensures Leave(w', r).sem.free <==> w'.sem.free || w.dismissed[r] == []
  {}

  /** In whatever order they leave, the head ends up leading to the records behind the one that
      left last, and the semaphore is set free if and only if one of them had none behind it. */
  lemma {:induction false} Departures(w: World, rs: seq<Waiter>)
    requires Leavers(w, rs) && rs != []
    ensures HaveLeft(w, LeaveAll(w, rs), rs[|rs| - 1])
    ensures forall r :: r in LeaveAll(w, rs).dismissed <==> r in w.dismissed && r !in rs
    ensures LeaveAll(w, rs).sem.free <==> w.sem.free || exists r :: r in rs && w.dismissed[r] == []
    decreases |rs|
  {
    var n := |rs| - 1;
    var before, last := rs[..n], rs[n];
    assert forall r :: r in rs <==> r in before || r == last;
    assert LeaveAll(w, rs) == Leave(LeaveAll(w, before), last);
    if n > 0 {
      Departures(w, before);
      OneMoreLeaves(w, LeaveAll(w, before), before[n - 1], last);
    } else {
      assert LeaveAll(w, before) == w;
    }
  }

  /** From any queue in order: after some departures the queue is in order again if and only if
      nobody had queued and the task that left last was the last of those dismissed with it.
      Whoever had queued is cut off. */
  lemma DeparturesKeepQueue(w: World, rs: seq<Waiter>)
    requires QueueInv(w) && Leavers(w, rs) && rs != []
    ensures Intact(LeaveAll(w, rs)) <==> w.sem.queue == [] && w.dismissed[rs[|rs| - 1]] == []
    ensures QueueInv(LeaveAll(w, rs)) <==> Intact(LeaveAll(w, rs))
    ensures forall r :: r in w.waiters ==> CutOff(LeaveAll(w, rs), r)
  {
    Departures(w, rs);
    LedAstray(w, LeaveAll(w, rs), rs[|rs| - 1]);
  }

  lemma LedAstray(w: World, w': World, last: Waiter)
    requires QueueInv(w) && HaveLeft(w, w', last)
    ensures Intact(w') <==> w.sem.queue == [] && w.dismissed[last] == []
    ensures QueueInv(w') <==> Intact(w')
    ensures forall r :: r in w.waiters ==> CutOff(w', r)
  {
    if w.dismissed[last] != [] {
      assert w.dismissed[last][0] in w'.sem.queue;
    } else if w.sem.queue != [] {
      assert w.sem.queue[0] in w.waiters;
    }
  }

  /** Waiting, but the queue does not lead there, and no departure will make it. */
  predicate CutOff(w: World, r: Waiter) {
    && r in w.waiters && r !in w.sem.queue && r.ticket < w.clock
    && forall d :: d in w.dismissed ==> r !in w.dismissed[d]
  }

  /** No wait or signal, no deletion, and no failed wait of a task that is queued, owns the
      semaphore or was dismissed brings it back: it is never handed the semaphore nor woken. */
  lemma StaysCutOff(w: World, e: Event, r: Waiter)
    requires CutOff(w, r) && Enabled(w, e)
    ensures CutOff(After(w, e), r)
  {
    match e
    case DoWait(id, priority) =>
      if !w.sem.free {
        var k := EnqueuedInserts(w.sem.queue, Waiter(id, priority, w.clock));
      }
    case DoDelete =>
      forall q | q in w.sem.queue ensures r !in Behind(w.sem.queue, q) {
        BehindIsQueued(w.sem.queue, q);
      }
    case _ =>
  }

  /** Each waiter in the order of the queue, with those behind it. */
  lemma {:induction false} BehindAt(queue: seq<Waiter>, i: nat)
    requires i < |queue| && forall a, b :: 0 <= a < b < |queue| ==> queue[a] != queue[b]
    ensures Behind(queue, queue[i]) == queue[i + 1..]
  {
    if i > 0 {
      BehindAt(queue[1..], i - 1);
    }
  }

  lemma {:induction false} DistinctSize(s: seq<Waiter>)
    requires forall i, j :: 0 <= i < j < |s| ==> s[i] != s[j]
    ensures |set r | r in s| == |s|
  {
    if s != [] {
      var n := |s| - 1;
      DistinctSize(s[..n]);
      assert s == s[..n] + [s[n]];
      assert (set r | r in s) == (set r | r in s[..n]) + {s[n]};
    }
  }

  /** Different members of a queue, as many as it has, are all of them. */
  lemma AllLeave(queue: seq<Waiter>, rs: seq<Waiter>)
    requires forall i, j :: 0 <= i < j < |queue| ==> queue[i] != queue[j]
    requires forall i, j :: 0 <= i < j < |rs| ==> rs[i] != rs[j]
    requires (forall r :: r in rs ==> r in queue) && |rs| == |queue|
    ensures forall r :: r in queue ==> r in rs
  {
    var all, some := set r | r in queue, set r | r in rs;
    DistinctSize(queue);
    DistinctSize(rs);
    assert some <= all && |all - some| == |all| - |some|;
    assert all - some == {};
    forall r | r in queue ensures r in rs {
      assert r in all;
    }
  }

  /** What mbx_sem_delete makes of a queue: everyone is dismissed, with those behind it. */
  lemma Deleted(w: World)
    requires QueueInv(w) && w.dismissed == map[]
    ensures JustDeleted(After(w, DoDelete), w.sem.queue)
    ensures After(w, DoDelete).holders == w.holders
  {
    DeleteKeepsQueue(w);
    assert forall a, b :: 0 <= a < b < |w.sem.queue| ==> w.sem.queue[a] != w.sem.queue[b];
    forall i | 0 <= i < |w.sem.queue| ensures Behind(w.sem.queue, w.sem.queue[i]) == w.sem.queue[i + 1..] {
      BehindAt(w.sem.queue, i);
    }
  }

  /** Whoever is the first to leave, or the second, leads the head to others. */
  lemma LedAstrayOnTheWay(d: World, rs: seq<Waiter>)
    requires Leavers(d, rs) && |rs| > 1 && d.waiters == {}
    requires d.dismissed[rs[0]] != [] || d.dismissed[rs[1]] != []
    ensures exists j :: 0 < j <= |rs| && !Sound(LeaveAll(d, rs[..j]))
  {
    var j := if d.dismissed[rs[0]] != [] then 1 else 2;
    assert forall r :: r in rs[..j] ==> r in rs;
    Departures(d, rs[..j]);
    assert d.dismissed[rs[j - 1]][0] in LeaveAll(d, rs[..j]).sem.queue;
  }

  /** The tasks of queue were dismissed, each with those behind it. */
  ghost predicate JustDeleted(d: World, queue: seq<Waiter>) {
    && QueueInv(d) && d.waiters == {} && d.sem.queue == []
    && (forall i, j :: 0 <= i < j < |queue| ==> queue[i] != queue[j])
    && (forall r :: r in d.dismissed <==> r in queue)
    && forall i :: 0 <= i < |queue| ==> d.dismissed[queue[i]] == queue[i + 1..]
  }

  lemma OnlyLastHasNobody(d: World, queue: seq<Waiter>, r: Waiter)
    requires JustDeleted(d, queue) && r in queue
    ensures d.dismissed[r] == [] <==> r == queue[|queue| - 1]
  {
    var i :| 0 <= i < |queue| && queue[i] == r;
    assert d.dismissed[queue[i]] == queue[i + 1..];
  }

  lemma AllHaveLeft(d: World, queue: seq<Waiter>, rs: seq<Waiter>)
    requires JustDeleted(d, queue) && queue != [] && Leavers(d, rs) && |rs| == |queue|
    ensures var d' := LeaveAll(d, rs);
            && d'.dismissed == map[] && d'.waiters == {} && d'.sem.free && d'.holders == d.holders
            && (QueueInv(d') <==> rs[|rs| - 1] == queue[|queue| - 1])
  {
    AllLeave(queue, rs);
    Departures(d, rs);
    DeparturesKeepQueue(d, rs);
    OnlyLastHasNobody(d, queue, rs[|rs| - 1]);
    OnlyLastHasNobody(d, queue, queue[|queue| - 1]);
  }

  /** A whole queue is deleted and all its tasks leave, in any order and with nobody else coming:
      the queue is in order afterwards if and only if the last to leave was the last in the
      queue. The semaphore is then free with its owner still in its call. With two tasks or
      more, the head leads to records of dismissed tasks at some time, whatever the order. */
  lemma DeletedQueue(w: World, rs: seq<Waiter>)
    requires Invariant(w) && w.sem.queue != [] && w.dismissed == map[]
    requires Leavers(After(w, DoDelete), rs) && |rs| == |w.sem.queue|
    ensures var w' := LeaveAll(After(w, DoDelete), rs);
            && w'.dismissed == map[] && w'.waiters == {}
            && (QueueInv(w') <==> rs[|rs| - 1] == w.sem.queue[|rs| - 1])
            && w'.sem.free && w'.holders == w.holders && |w.holders| == 1
    ensures |rs| > 1 ==> exists j :: 0 < j <= |rs| && !Sound(LeaveAll(After(w, DoDelete), rs[..j]))
  {
    Deleted(w);
    var d := After(w, DoDelete);
    AllHaveLeft(d, w.sem.queue, rs);
    if |rs| > 1 {
      OnlyLastHasNobody(d, w.sem.queue, rs[0]);
      OnlyLastHasNobody(d, w.sem.queue, rs[1]);
      LedAstrayOnTheWay(d, rs);
    }
  }

  lemma Extend(events: seq<Event>, w: World, e: Event) returns (events': seq<Event>, w': World)
    requires Run(events, w) && Enabled(w, e)
    ensures w' == After(w, e) && Run(events', w') && events' == events + [e]
  {
    events', w' := events + [e], After(w, e);
    assert events'[..|events|] == events;
  }

  lemma TwoWait() returns (events: seq<Event>)
    ensures Run(events, World(Sem(false, [Waiter(1, 0, 1)]), {0}, {}, {Waiter(1, 0, 1)}, map[], 2))
  {
    var w;
    events, w := Extend([], START, DoWait(0, 0));
    assert w == World(Sem(false, []), {0}, {}, {}, map[], 1);
    events, w := Extend(events, w, DoWait(1, 0));
    assert w.sem.queue == [Waiter(1, 0, 1)];
    assert w.waiters == {Waiter(1, 0, 1)};
  }

  /** The only waiter gives up, and the next task gets a semaphore that has an owner. */
  lemma TwoOwners() returns (events: seq<Event>)
    ensures Run(events, World(Sem(false, []), {0, 2}, {}, {}, map[], 3))
  {
    events := TwoWait();
    var w := World(Sem(false, [Waiter(1, 0, 1)]), {0}, {}, {Waiter(1, 0, 1)}, map[], 2);
    events, w := Extend(events, w, DoGiveUp(0));
    assert w == World(Sem(true, []), {0}, {}, {}, map[], 2);
    events, w := Extend(events, w, DoWait(2, 0));
    assert w.holders == {0, 2};
  }

  /** A third task queues behind the second. */
  lemma ThreeWait() returns (events: seq<Event>)
    ensures Run(events, World(Sem(false, [Waiter(1, 0, 1), Waiter(2, 0, 2)]), {0}, {},
                              {Waiter(1, 0, 1), Waiter(2, 0, 2)}, map[], 3))
  {
    events := TwoWait();
    var w := World(Sem(false, [Waiter(1, 0, 1)]), {0}, {}, {Waiter(1, 0, 1)}, map[], 2);
    events, w := Extend(events, w, DoWait(2, 0));
    assert w.sem.queue == [Waiter(1, 0, 1), Waiter(2, 0, 2)];
    assert w.waiters == {Waiter(1, 0, 1), Waiter(2, 0, 2)};
  }

  const LOW := Waiter(1, 1, 1)

  const HIGH := Waiter(2, 9, 2)

  lemma LowQueues() returns (events: seq<Event>)
    ensures events == [DoWait(0, 5), DoWait(1, 1)]
    ensures Run(events, World(Sem(false, [LOW]), {0}, {}, {LOW}, map[], 2))
  {
    var w;
    events, w := Extend([], START, DoWait(0, 5));
    assert w == World(Sem(false, []), {0}, {}, {}, map[], 1);
    events, w := Extend(events, w, DoWait(1, 1));
    assert w.sem.queue == [LOW] && w.waiters == {LOW};
  }

  lemma HighQueues() returns (events: seq<Event>)
    ensures events == [DoWait(0, 5), DoWait(1, 1), DoWait(2, 9)]
    ensures Run(events, World(Sem(false, [HIGH, LOW]), {0}, {}, {LOW, HIGH}, map[], 3))
  {
    events := LowQueues();
    var w := World(Sem(false, [LOW]), {0}, {}, {LOW}, map[], 2);
    events, w := Extend(events, w, DoWait(2, 9));
    assert w.sem.queue == [HIGH, LOW] && w.waiters == {LOW, HIGH};
  }

  /** The semaphore goes to the waiter of the highest priority, not to the first that came. */
  lemma HighestFirst() returns (events: seq<Event>)
    ensures events == [DoWait(0, 5), DoWait(1, 1), DoWait(2, 9), DoSignal(0)]
    ensures Run(events, World(Sem(false, [LOW]), {2}, {2}, {LOW}, map[], 3))
  {
    events := HighQueues();
    var w := World(Sem(false, [HIGH, LOW]), {0}, {}, {LOW, HIGH}, map[], 3);
    events, w := Extend(events, w, DoSignal(0));
    assert w.holders == {2} && w.waking == {2} && w.waiters == {LOW};
  }

  /** A waiter is handed the semaphore, finds a signal pending and leaves; another one waits
      behind it, and nobody will ever signal. */
  lemma NobodyOwns() returns (events: seq<Event>)
    ensures Run(events, World(Sem(false, [Waiter(2, 0, 2)]), {}, {}, {Waiter(2, 0, 2)}, map[], 3))
    ensures Orphaned(World(Sem(false, [Waiter(2, 0, 2)]), {}, {}, {Waiter(2, 0, 2)}, map[], 3))
  {
    events := ThreeWait();
    var w := World(Sem(false, [Waiter(1, 0, 1), Waiter(2, 0, 2)]), {0}, {},
                   {Waiter(1, 0, 1), Waiter(2, 0, 2)}, map[], 3);
    events, w := Extend(events, w, DoSignal(0));
    assert w == World(Sem(false, [Waiter(2, 0, 2)]), {1}, {1}, {Waiter(2, 0, 2)}, map[], 3);
    events, w := Extend(events, w, DoAbandon(1));
    assert w.holders == {} && w.waking == {};
  }

  /** Two waiters are dismissed, the first one leading on to the second. */
  lemma TwoDismissed() returns (events: seq<Event>)
    ensures Run(events, World(Sem(false, []), {0}, {}, {},
                              map[Waiter(1, 0, 1) := [Waiter(2, 0, 2)], Waiter(2, 0, 2) := []], 3))
  {
    events := ThreeWait();
    var a, b := Waiter(1, 0, 1), Waiter(2, 0, 2);
    var w := World(Sem(false, [a, b]), {0}, {}, {a, b}, map[], 3);
    DismissBoth(w, a, b);
    events, w := Extend(events, w, DoDelete);
  }

  lemma DismissBoth(w: World, a: Waiter, b: Waiter)
    requires a != b && w.sem == Sem(false, [a, b]) && w.waiters == {a, b} && w.dismissed == map[]
    ensures After(w, DoDelete) == w.(sem := Sem(false, []), waiters := {}, dismissed := map[a := [b], b := []])
  {
    assert Behind([a, b], a) == [b];
    assert Behind([a, b], b) == Behind([b], b) == [];
  }

  /** They leave in the wrong order: both have left, and the queue leads to the record of one
      of them; the semaphore is free with an owner. */
  lemma WrongOrder() returns (events: seq<Event>)
    ensures Run(events, World(Sem(true, [Waiter(2, 0, 2)]), {0}, {}, {}, map[], 3))
  {
    events := TwoDismissed();
    var a, b := Waiter(1, 0, 1), Waiter(2, 0, 2);
    var w := World(Sem(false, []), {0}, {}, {}, map[a := [b], b := []], 3);
    events, w := Extend(events, w, DoLeave(b));
    assert w.dismissed == map[a := [b]];
    events, w := Extend(events, w, DoLeave(a));
    assert w.dismissed == map[];
  }

  /** Only one waiter is dismissed, and the next task queues. */
  lemma OneDismissed() returns (events: seq<Event>)
    ensures Run(events, World(Sem(false, [Waiter(2, 0, 2)]), {0}, {}, {Waiter(2, 0, 2)},
                              map[Waiter(1, 0, 1) := []], 3))
  {
    events := TwoWait();
    var a := Waiter(1, 0, 1);
    var w := World(Sem(false, [a]), {0}, {}, {a}, map[], 2);
    DismissOne(w, a);
    events, w := Extend(events, w, DoDelete);
    NextQueues(w, 2);
    events, w := Extend(events, w, DoWait(2, 0));
  }

  lemma DismissOne(w: World, a: Waiter)
    requires w.sem == Sem(false, [a]) && w.waiters == {a} && w.dismissed == map[]
    ensures After(w, DoDelete) == w.(sem := Sem(false, []), waiters := {}, dismissed := map[a := []])
  {
    assert Behind([a], a) == [];
  }

  lemma NextQueues(w: World, id: nat)
    requires Enabled(w, DoWait(id, 0)) && w.sem == Sem(false, []) && w.waiters == {}
    ensures var c := Waiter(id, 0, w.clock);
            After(w, DoWait(id, 0)) == w.(sem := Sem(false, [c]), waiters := {c}, clock := w.clock + 1)
  {}

  /** The dismissed one leaves: the newcomer is cut off, and the next task gets a semaphore
      that has an owner. */
  lemma NewcomerCutOff() returns (events: seq<Event>)
    ensures Run(events, World(Sem(false, []), {0, 3}, {}, {Waiter(2, 0, 2)}, map[], 4))
    ensures CutOff(World(Sem(false, []), {0, 3}, {}, {Waiter(2, 0, 2)}, map[], 4), Waiter(2, 0, 2))
  {
    events := OneDismissed();
    var a, c := Waiter(1, 0, 1), Waiter(2, 0, 2);
    var w := World(Sem(false, [c]), {0}, {}, {c}, map[a := []], 3);
    events, w := Extend(events, w, DoLeave(a));
    assert w.dismissed == map[];
    events, w := Extend(events, w, DoWait(3, 0));
    assert w.holders == {0, 3};
  }
}
