/** The semaphore of a FIFO with its queue on the heap (fifos/rtai_fifos.c:168-279, 495-519):
    every operation does to the fields and links what SemaphoreSpec says of the value.
  */
module Semaphore {
  import opened LinkedRing
  import Spec = SemaphoreSpec

  /** What the task pointer of a queue member leads to: nothing for the head. */
  datatype Link = Head | Blocked(who: Spec.Waiter, blocked: bool)

  /** The walk of enqueue_blocked stops at the first place Enqueued can insert at. */
  lemma {:induction false} EnqueuedAt(queue: seq<Spec.Waiter>, w: Spec.Waiter, k: nat)
    requires k <= |queue| && forall i :: 0 <= i < k ==> queue[i].priority >= w.priority
    requires k < |queue| ==> queue[k].priority < w.priority
    ensures Spec.Enqueued(queue, w) == Inserted(queue, k, w)
  {
    if k > 0 {
      EnqueuedAt(queue[1..], w, k - 1);
      assert queue == [queue[0]] + queue[1..];
    }
  }

  /** The head of the ring stands for no task, its members for the waiters in order. */
  ghost predicate Holds(ring: seq<Node<Link>>, waiters: seq<Spec.Waiter>)
    reads ring
  {
    && |ring| == |waiters| + 1 && ring[0].task == Head
    && forall i :: 1 <= i < |ring| ==> ring[i].task == Blocked(waiters[i - 1], true)
  }

  lemma RemovedHolds(ring: seq<Node<Link>>, waiters: seq<Spec.Waiter>, k: nat)
    requires 1 <= k < |ring| == |waiters| + 1 && ring[0].task == Head
    requires forall i :: 1 <= i < |ring| && i != k ==> ring[i].task == Blocked(waiters[i - 1], true)
    ensures Holds(Removed(ring, k), Removed(waiters, k - 1)) && Removed(ring, k)[0] == ring[0]
  {
    RemovedAt(ring, k, 0);
    forall i | 1 <= i < |ring| - 1
      ensures Removed(ring, k)[i].task == Blocked(Removed(waiters, k - 1)[i - 1], true)
    {
      RemovedAt(ring, k, i);
      RemovedAt(waiters, k - 1, i - 1);
    }
  }

  lemma InsertedHolds(ring: seq<Node<Link>>, waiters: seq<Spec.Waiter>, k: nat, n: Node<Link>, who: Spec.Waiter)
    requires Holds(ring, waiters) && 1 <= k <= |ring| && n.task == Blocked(who, true)
    ensures Holds(Inserted(ring, k, n), Inserted(waiters, k - 1, who)) && Inserted(ring, k, n)[0] == ring[0]
  {
    InsertedAt(ring, k, n, 0);
    forall i | 1 <= i <= |ring|
      ensures Inserted(ring, k, n)[i].task == Blocked(Inserted(waiters, k - 1, who)[i - 1], true)
    {
      InsertedAt(ring, k, n, i);
      InsertedAt(waiters, k - 1, who, i - 1);
    }
  }

  /** A ring whose members 1 to d were taken off, one after the other. */
  function Dropped<A>(s: seq<A>, d: nat): (r: seq<A>)
    requires d < |s|
    ensures |r| == |s| - d
  {
    if d == 0 then s else Removed(Dropped(s, d - 1), 1)
  }

  lemma {:induction false} DroppedFrom<A>(s: seq<A>, d: nat, i: nat)
    requires d < |s| && i < |s| - d
    ensures Dropped(s, d)[i] == s[if i == 0 then 0 else i + d]
  {
    if d > 0 {
      DroppedFrom(s, d - 1, if i == 0 then 0 else i + 1);
      RemovedAt(Dropped(s, d - 1), 1, i);
    }
  }

  lemma DroppedAt<A>(s: seq<A>, d: nat)
    requires d < |s| - 1
    ensures Dropped(s, d)[1] == s[d + 1] && Dropped(s, d)[0] == s[0]
  {
    DroppedFrom(s, d, 0);
    DroppedFrom(s, d, 1);
  }

  lemma RemovedMembers<A>(s: seq<A>, k: nat)
    requires k < |s|
    ensures forall a :: a in Removed(s, k) ==> a in s
  {}

  /** The tasks of the first d waiters. */
  function Ids(queue: seq<Spec.Waiter>, d: nat): (ids: seq<nat>)
    requires d <= |queue|
    ensures |ids| == d
  {
    if d == 0 then [] else Ids(queue, d - 1) + [queue[d - 1].id]
  }

  lemma {:induction false} IdsAt(queue: seq<Spec.Waiter>, d: nat)
    requires d <= |queue|
    ensures forall i :: 0 <= i < d ==> Ids(queue, d)[i] == queue[i].id
  {
    if d > 0 {
      IdsAt(queue, d - 1);
    }
  }

  /** The tasks that the nodes stand for. */
  ghost function Whos(nodes: seq<Node<Link>>): (ws: seq<Spec.Waiter>)
    reads nodes
    requires forall m :: m in nodes ==> m.task.Blocked?
    ensures |ws| == |nodes| && forall i :: 0 <= i < |nodes| ==> ws[i] == nodes[i].task.who
  {
    if nodes == [] then [] else Whos(nodes[..|nodes| - 1]) + [nodes[|nodes| - 1].task.who]
  }

  /** F_SEM */
  class Sem {
    var free: bool
    const queue: Node<Link>
    ghost var ring: seq<Node<Link>>
    ghost var waiters: seq<Spec.Waiter>

    ghost predicate Valid()
      reads this, ring
    {
      Linked(ring) && ring[0] == queue && Holds(ring, waiters)
    }

    /** The semaphore as a value. */
    ghost function Value(): Spec.Sem
      reads this
    {
      Spec.Sem(free, waiters)
    }

    /** mbx_sem_init */
    constructor (value: bool)
      ensures Valid() && fresh(queue) && Value() == Spec.Sem(value, [])
    {
      var q := new Node<Link>(Head);
      free := value;
      queue := q;
      ring := [q];
      waiters := [];
    }

    /** The loop of enqueue_blocked: the first member of lower priority, or the head. */
    method Walk(priority: int) returns (q: Node<Link>, ghost k: nat)
      requires Valid()
      ensures 1 <= k <= |ring| && q == ring[if k < |ring| then k else 0]
      ensures forall i :: 0 <= i < k - 1 ==> waiters[i].priority >= priority
      ensures k < |ring| ==> waiters[k - 1].priority < priority
    {
      q := queue.next;
      k := 1;
      while q != queue && q.task.who.priority >= priority
        invariant 1 <= k <= |ring| && q == ring[if k < |ring| then k else 0]
        invariant forall i :: 0 <= i < k - 1 ==> waiters[i].priority >= priority
        decreases |ring| - k
      {
        q := q.next;
        k := k + 1;
      }
    }

    /** enqueue_blocked with qtype 0 */
    method Enqueue(n: Node<Link>, who: Spec.Waiter)
      requires Valid() && n !in ring
      modifies this`ring, this`waiters, ring, n
      ensures Valid() && Value() == old(Value()).(queue := Spec.Enqueued(old(waiters), who))
      ensures n in ring && forall m :: m in ring <==> m in old(ring) || m == n
    {
      n.task := Blocked(who, true);
      var q, k := Walk(who.priority);
      InsertBefore(n, q, ring, k);
      EnqueuedAt(waiters, who, k - 1);
      InsertedHolds(ring, waiters, k, n, who);
      Members(ring, k, n);
      ring, waiters := Inserted(ring, k, n), Inserted(waiters, k - 1, who);
    }

    static lemma Members<A>(s: seq<A>, k: nat, a: A)
      requires k <= |s|
      ensures forall m :: m in Inserted(s, k, a) <==> m in s || m == a
    {
      assert s == s[..k] + s[k..];
    }

    /** mbx_sem_wait up to schedule(): true if the task has to sleep. */
    method Wait(n: Node<Link>, id: nat, priority: int, ticket: nat) returns (sleep: bool)
      requires Valid() && n !in ring
      modifies this, ring, n
      ensures Valid() && Value() == Spec.Wait(old(Value()), Spec.Waiter(id, priority, ticket))
      ensures sleep == !old(free)
      ensures forall m :: m in ring <==> m in old(ring) || (sleep && m == n)
    {
      if !free {
        Enqueue(n, Spec.Waiter(id, priority, ticket));
        sleep := true;
      } else {
        free := false;
        sleep := false;
      }
    }

    /** mbx_sem_wait_if */
    method WaitIf() returns (acquired: bool)
      requires Valid()
      modifies this`free
      ensures Valid() && (Value(), acquired) == Spec.WaitIf(old(Value()))
      ensures acquired == old(free) && !free
    {
      acquired := free;
      if free {
        free := false;
      }
    }

    /** dequeue_blocked. A member of the queue (at place k) leaves it; for others only the
        two writes are known. */
    method Dequeue(n: Node<Link>, ghost k: nat, ghost r: seq<Node<Link>>)
      requires n.task.Blocked? && n.prev != n && n.next != n
      requires k > 0 ==> Valid() && k < |ring| && n == ring[k]
      modifies this`ring, this`waiters, n`task, n.prev`next, n.next`prev
      ensures n.task == old(n.task).(blocked := false)
      ensures n.prev == old(n.prev) && n.next == old(n.next) && n.prev.next == n.next && n.next.prev == n.prev
      ensures k > 0 ==>
                && Valid() && n !in ring && n.task.who == old(waiters)[k - 1]
                && ring == Removed(old(ring), k) && waiters == Removed(old(waiters), k - 1)
      ensures k == 0 ==> ring == old(ring) && waiters == old(waiters)
      ensures n !in r ==> (Linked(r) <==> old(LinkedBut(r, n.prev, n.next)))
    {
      n.task := n.task.(blocked := false);
      Unlink(n, ring, k, r);
      if k > 0 {
        RemovedIsDistinct(ring, k);
        RemovedHolds(ring, waiters, k);
        ring, waiters := Removed(ring, k), Removed(waiters, k - 1);
      }
    }

    /** mbx_sem_signal: the task to wake, if there is one. */
    method Signal() returns (woken: Spec.Option<nat>)
      requires Valid()
      modifies this, ring
      ensures Valid() && (Value(), woken) == Spec.Signal(old(Value()))
      ensures woken.Some? ==> var n := old(ring[1]); n !in ring && n.task == Blocked(old(waiters)[0], false)
    {
      var n := queue.next;
      if n.task != Head {
        woken := Spec.Some(n.task.who.id);
        assert Removed(waiters, 0) == waiters[1..];
        Dequeue(n, 1, []);
      } else {
        woken := Spec.None;
        free := true;
      }
    }

    /** The end of mbx_sem_wait, lines 260-278. The wait fails when a signal is pending or the
        blocked flag is still set. With the flag set the task takes itself off the queue, and
        sets the semaphore free when nobody else is in it. It may be in the queue (at place k),
        or off it with the flag clear (woken by Signal) or set (woken by Delete, or cut off).
        In that last case, whatever the queue has become meanwhile, its links decide which
        circles there are afterwards. From where Delete has left it, the head leads on to the
        members behind: the queue is in order if and only if there are none, and whoever was
        in it is not any more. */
    method AfterSleep(n: Node<Link>, signalled: bool, ghost k: nat, ghost behind: seq<Node<Link>>,
                      ghost r: seq<Node<Link>>)
      returns (failed: bool)
      requires n.task.Blocked? && n.prev != n && n.next != n && queue.task == Head
      requires if k > 0 then Valid() && k < |ring| && n == ring[k] else n.task.blocked || Valid()
      modifies this, n`task, n.prev`next, n.next`prev
      ensures failed == (signalled || old(n.task.blocked)) && n.task == old(n.task).(blocked := false)
      ensures k > 0 ==> Valid() && Value() == Spec.LeftQueue(old(Value()), k - 1) && n !in ring
      ensures !old(n.task.blocked) ==> Valid() && Value() == old(Value()) && ring == old(ring)
      ensures old(n.task.blocked) ==> free == (old(free) || queue.next.task == Head)
      ensures old(n.task.blocked) && n !in r ==> (Linked(r) <==> old(LinkedBut(r, n.prev, n.next)))
      ensures k == 0 && old(n.task.blocked) && old(Dismissed(n, behind)) ==>
                && LeadsTo(behind) && n.next == old(n.next) && n.next.prev == queue
                && Shows(Spec.LeftDeleted(old(Value()), old(Whos(behind))), behind)
                && (Valid() <==> behind == [])
                && (behind == [] ==> ring == [queue])
                && forall m :: m in old(ring) && m != queue ==> m !in behind
    {
      failed := signalled;
      if n.task.blocked {
        Dequeue(n, k, r);
        if queue.next.task == Head {
          free := true;
        }
        failed := true;
        if k == 0 && queue.next == queue && queue.prev == queue {
          ring, waiters := [queue], [];
        }
      }
    }

    /** From the head, next leads through these nodes and back to the head. */
    ghost predicate LeadsTo(nodes: seq<Node<Link>>)
      reads this, nodes, queue
    {
      && queue !in nodes && queue.next == At(nodes, 0)
      && forall i {:trigger nodes[i].next} :: 0 <= i < |nodes| ==> nodes[i].next == At(nodes, i + 1)
    }

    /** The value that the fields and the nodes reached from the head stand for. */
    ghost predicate Shows(s: Spec.Sem, nodes: seq<Node<Link>>)
      reads this, nodes, queue
    {
      && LeadsTo(nodes) && free == s.free && |nodes| == |s.queue|
      && forall i :: 0 <= i < |nodes| ==> nodes[i].task.Blocked? && nodes[i].task.who == s.queue[i]
    }

    /** The i-th of the nodes, or the head behind the last. */
    ghost function At(nodes: seq<Node<Link>>, i: nat): Node<Link>
      reads this
    {
      if i < |nodes| then nodes[i] else queue
    }

    /** Where Delete leaves a waiter: off the queue, its links leading back to the head and on
        to those that waited behind it, none of which is in the queue. */
    ghost predicate Dismissed(n: Node<Link>, behind: seq<Node<Link>>)
      reads this, n, behind
    {
      && n !in ring && n !in behind && queue !in behind && n.prev == queue && n.next == At(behind, 0)
      && (forall m :: m in behind ==> m !in ring && m.task.Blocked?)
      && forall i {:trigger behind[i].next} :: 0 <= i < |behind| ==> behind[i].next == At(behind, i + 1)
    }

    /** mbx_sem_delete: every waiter is woken, in the order of the queue; its flag stays set. */
    method Delete() returns (woken: seq<nat>)
      requires Valid()
      modifies this`ring, this`waiters, ring
      ensures Valid() && waiters == [] && ring == [queue] && free == old(free)
      ensures |woken| == |old(waiters)|
      ensures forall i :: 0 <= i < |woken| ==> woken[i] == old(waiters)[i].id
      ensures forall i :: 1 <= i < |old(ring)| ==>
                && old(ring)[i].task == Blocked(old(waiters)[i - 1], true)
                && Dismissed(old(ring)[i], old(ring)[i + 1..])
    {
      ghost var was, all := waiters, ring;
      woken := PopAll(all, was);
      IdsAt(was, |was|);
      AllDismissed(all, was);
    }

    lemma AllDismissed(all: seq<Node<Link>>, was: seq<Spec.Waiter>)
      requires Dismissing(all, was, |was|)
      ensures forall i :: 1 <= i < |all| ==>
                all[i].task == Blocked(was[i - 1], true) && Dismissed(all[i], all[i + 1..])
    {
      forall i | 1 <= i < |all| ensures Dismissed(all[i], all[i + 1..]) {
        IsDismissed(all, was, i);
      }
    }

    lemma IsDismissed(all: seq<Node<Link>>, was: seq<Spec.Waiter>, i: nat)
      requires Dismissing(all, was, |was|) && 1 <= i < |all|
      ensures Dismissed(all[i], all[i + 1..])
    {
      var behind := all[i + 1..];
      forall j | 0 <= j < |behind|
        ensures behind[j] != all[i] && behind[j] != queue && behind[j].task.Blocked?
        ensures behind[j] !in ring && behind[j].next == At(behind, j + 1)
      {
        assert behind[j] == all[i + 1 + j];
      }
      assert all[i].next == At(behind, 0);
    }

    /** Members 1 to d of the ring all have been taken off. */
    ghost predicate Dismissing(all: seq<Node<Link>>, was: seq<Spec.Waiter>, d: nat)
      reads this, ring, all
    {
      && Valid() && Distinct(all) && |was| == |all| - 1 && d < |all| && all[0] == queue && ring == Dropped(all, d)
      && (forall i {:trigger all[i].next} :: 1 <= i < |all| ==> all[i].next == all[Onward(i, |all|)])
      && (forall i :: 1 <= i < |all| ==> all[i].task == Blocked(was[i - 1], true))
      && (forall i :: 1 <= i <= d ==> all[i].prev == queue && all[i] !in ring)
      && (queue.next.task == Head <==> d == |was|) && (d < |was| ==> queue.next == all[d + 1])
      && (d == |was| ==> ring == [queue] && waiters == [])
    }

    /** The loop of mbx_sem_delete. */
    method PopAll(ghost all: seq<Node<Link>>, ghost was: seq<Spec.Waiter>) returns (woken: seq<nat>)
      requires Dismissing(all, was, 0)
      modifies this`ring, this`waiters, ring
      ensures Dismissing(all, was, |was|) && woken == Ids(was, |was|)
    {
      woken := [];
      ghost var d := 0;
      while queue.next.task != Head
        invariant Dismissing(all, was, d) && woken == Ids(was, d)
        decreases |was| - d
      {
        assert queue.next.next == all[Onward(d + 1, |all|)];
        var id := PopNext(all, was, d);
        woken := woken + [id];
        d := d + 1;
      }
    }

    /** A round of it. */
    method PopNext(ghost all: seq<Node<Link>>, ghost was: seq<Spec.Waiter>, ghost d: nat) returns (id: nat)
      requires Dismissing(all, was, d) && d < |was|
      modifies this`ring, this`waiters, queue`next, queue.next.next`prev
      ensures Dismissing(all, was, d + 1) && id == was[d].id
    {
      DroppedAt(all, d);
      id := queue.next.task.who.id;
      assert queue.next == all[d + 1] && queue.next.next in ring;
      assert forall i :: 1 <= i <= d ==> all[i] != queue.next.next;
      RemovedIsDistinct(ring, 1);
      RemovedMembers(ring, 1);
      Pop();
      assert queue.next == ring[Onward(0, |ring|)];
      if d + 1 < |was| {
        DroppedAt(all, d + 1);
        assert queue.next == all[d + 2];
      }
    }

    /** Lines 510-512: the first member is taken off, its own links staying as they are. */
    method Pop()
      requires Valid() && |ring| > 1
      modifies this`ring, this`waiters, queue`next, queue.next.next`prev
      ensures Valid() && ring == Removed(old(ring), 1) && waiters == old(waiters)[1..]
      ensures old(ring)[1].prev == queue
    {
      assert queue.next == ring[1];
      UnlinkFirst(queue, ring);
      RemovedHolds(ring, waiters, 1);
      assert Removed(waiters, 0) == waiters[1..];
      ring, waiters := Removed(ring, 1), waiters[1..];
    }
  }
}
