/** Bit-flag synchronisation on the heap (bits/rtai_bits.c:39-52, 172-334): the waiters are
    on a circular doubly linked queue and are unlinked while it is being walked.
  */
module Bits {
  import opened LinkedRing
  import opened BitsSpec

  const MAGIC := 0xaabcdeff

  /** 0xffff */
  const BITS_ERR: Word := seq(32, i => i < 16)

  /** What the task pointer of a queue member leads to: nothing for the head, a task whose
      blocked_on is set, or one that was woken and has this state word now. */
  datatype Link = Head | Waits(task: Task) | Awake(task: Task, state: Word)

  /** What a walk over the queue does: whose turn has come, what waking makes of the state
      word, and who becomes ready. */
  datatype Treatment = Treatment(goes: Task -> bool, becomes: Task -> Word, runs: Task -> bool)

  /** A walk on its way over the ring r, whose members held w: it has come to member k, which
      is member j of the ring that is left. All members are among all. */
  datatype Tour = Tour(r: seq<Node<Link>>, w: seq<Task>, all: set<Node<Link>>, j: nat, k: nat)

  /** How a wait ends: with BITS_ERR, in success, in a refusal to wait, or not before it has
      slept. resulting is the mask it reports. */
  datatype Outcome = Failed | Done(resulting: Word) | Refused(resulting: Word) | Sleeps

  function NewState(): Task -> Word {
    (t: Task) => StateAfter(t.state)
  }

  /** BITS */
  class Bits {
    var magic: int
    var mask: Word
    const queue: Node<Link>
    ghost var ring: seq<Node<Link>>
    ghost var waiters: seq<Task>
    ghost var leaving: multiset<Task>

    ghost predicate Valid()
      reads this, ring
    {
      Linked(ring) && ring[0] == queue && Carries(ring, waiters)
    }

    /** The object as a value. */
    ghost function Value(): World
      reads this
    {
      World(mask, waiters, leaving)
    }

    /** rt_bits_init */
    constructor (mask: Word)
      ensures Valid() && fresh(queue) && magic == MAGIC && Value() == World(mask, [], multiset{})
    {
      var q := new Node<Link>(Head);
      magic := MAGIC;
      this.mask := mask;
      queue := q;
      ring := [q];
      waiters := [];
      leaving := multiset{};
    }

    /** The test and exec functions of one mask. */
    method Exec(change: Change, m: Word)
      modifies this`mask
      ensures mask == Changed(old(mask), change, m)
    {
      match change
      case SetBits => mask := Or(mask, m);
      case ClrBits => mask := And(mask, Not(m));
      case NopBits =>
    }

    /** Lines 266-271, the same as 233-238: take a member off the queue. */
    method Wake(n: Node<Link>, becomes: Task -> Word, ghost k: nat)
      requires Valid() && 1 <= k < |ring| && n == ring[k]
      modifies this`ring, this`waiters, n`task, n.prev`next, n.next`prev
      ensures Valid() && ring == Removed(old(ring), k) && waiters == Removed(old(waiters), k - 1)
      ensures n !in ring && n.task == Awake(old(waiters)[k - 1], becomes(old(waiters)[k - 1]))
      ensures n.next == old(n.next) == old(ring)[Onward(k, |old(ring)|)]
    {
      n.task := Awake(n.task.task, becomes(n.task.task));
      Unlink(n, ring, k, []);
      RemovedIsDistinct(ring, k);
      RemovedCarries(ring, waiters, k);
      ring, waiters := Removed(ring, k), Removed(waiters, k - 1);
    }

    /** q is where the walk comes to after the first k - 1 of its members. */
    ghost predicate OnTour(q: Node<Link>, how: Treatment, tour: Tour)
      reads this, ring, tour.r
    {
      var r, k := tour.r, tour.k;
      && Valid() && 1 <= k <= |r| && Distinct(r) && r[0] == queue
      && (if k < |r| then q == r[k] && q != queue else q == queue)
      && TreatedUpTo(r, tour.w, k, how) && Ahead(ring, r, tour.all, tour.j, k)
    }

    /** One round of the walk over the queue. A member just unlinked still leads on. */
    method Visit(q: Node<Link>, how: Treatment, ghost tour: Tour) returns (woken: bool, ghost j: nat)
      requires OnTour(q, how, tour) && tour.k < |tour.r|
      modifies this`ring, this`waiters, tour.all
      ensures woken == how.goes(tour.w[tour.k - 1]) && 1 <= tour.j <= |old(waiters)|
      ensures waiters == if woken then Removed(old(waiters), tour.j - 1) else old(waiters)
      ensures j == (if woken then tour.j else tour.j + 1) && OnTour(q.next, how, tour.(j := j, k := tour.k + 1))
    {
      assert q == ring[tour.j] && q.next == ring[Onward(tour.j, |ring|)];
      NextAhead(ring, tour.r, tour.all, tour.j, tour.k);
      woken := how.goes(q.task.task);
      if woken {
        TakeOff(q, how, tour);
        j := tour.j;
      } else {
        Advanced(ring, tour.r, tour.all, tour.j, tour.k);
        j := tour.j + 1;
      }
      assert tour.k + 1 < |tour.r| ==> tour.r[tour.k + 1] != tour.r[0];
    }

    /** Visiting a member whose turn has come. */
    method TakeOff(q: Node<Link>, how: Treatment, ghost tour: Tour)
      requires Valid() && Ahead(ring, tour.r, tour.all, tour.j, tour.k) && tour.j < |ring| && tour.k < |tour.r|
      requires |tour.r| == |tour.w| + 1 && q == ring[tour.j] == tour.r[tour.k] && how.goes(tour.w[tour.k - 1])
      requires Distinct(tour.r) && TreatedUpTo(tour.r, tour.w, tour.k, how)
      modifies this`ring, this`waiters, tour.all
      ensures Valid() && waiters == Removed(old(waiters), tour.j - 1) && q.next == old(q.next)
      ensures Ahead(ring, tour.r, tour.all, tour.j, tour.k + 1)
      ensures TreatedUpTo(tour.r, tour.w, tour.k + 1, how)
    {
      Reduced(ring, tour.r, tour.all, tour.j, tour.k);
      assert forall i :: 0 <= i < |tour.r| && i != tour.k ==> tour.r[i] != q;
      Wake(q, how.becomes, tour.j);
    }

    /** The walk has come to q, having taken timed off the queue and made readied ready. */
    ghost predicate Walking(q: Node<Link>, timed: seq<Task>, readied: seq<Task>, how: Treatment, tour: Tour)
      reads this, ring, tour.r
    {
      && OnTour(q, how, tour)
      && var p := Walked(tour.w, tour.k - 1, how.goes, how.runs);
         tour.j == p.passed + 1 && waiters == p.left && timed == p.timed && readied == p.readied
    }

    /** A round of the walk. */
    method Round(q: Node<Link>, timed: seq<Task>, readied: seq<Task>, how: Treatment, ghost tour: Tour)
      returns (q': Node<Link>, timed': seq<Task>, readied': seq<Task>, ghost j: nat)
      requires Walking(q, timed, readied, how, tour) && tour.k < |tour.r|
      modifies this`ring, this`waiters, tour.all
      ensures Walking(q', timed', readied', how, tour.(j := j, k := tour.k + 1))
    {
      var t := q.task.task;
      assert t == tour.w[tour.k - 1];
      WalkedStep(tour.w, tour.k - 1, how.goes, how.runs, Walked(tour.w, tour.k - 1, how.goes, how.runs));
      var woken;
      woken, j := Visit(q, how, tour);
      timed', readied' := timed, readied;
      if woken {
        timed' := timed + [t];
        if how.runs(t) {
          readied' := readied + [t];
        }
      }
      q' := q.next;
    }

    /** The walk of rt_bits_signal and rt_bits_reset over the queue: who is taken off it and
        off the timed list, in this order, and who becomes ready. */
    method Walk(how: Treatment, ghost all: set<Node<Link>>) returns (timed: seq<Task>, readied: seq<Task>)
      requires Valid() && forall i :: 0 <= i < |ring| ==> ring[i] in all
      modifies this`ring, this`waiters, all
      ensures var p := Walked(old(waiters), |old(waiters)|, how.goes, how.runs);
              Valid() && waiters == p.left && timed == p.timed && readied == p.readied
      ensures TreatedUpTo(old(ring), old(waiters), |old(ring)|, how)
    {
      timed, readied := [], [];
      var q := queue.next;
      ghost var tour := Tour(ring, waiters, all, 1, 1);
      assert Walking(q, timed, readied, how, tour);
      while q != queue
        invariant Walking(q, timed, readied, how, tour)
        invariant tour.r == old(ring) && tour.w == old(waiters) && tour.all == all
        decreases |tour.r| - tour.k
      {
        ghost var j;
        q, timed, readied, j := Round(q, timed, readied, how, tour);
        tour := tour.(j := j, k := tour.k + 1);
      }
    }

    /** rt_bits_signal: what it returns, who is taken off the timed list and who becomes ready. */
    method Signal(change: Change, m: Word)
      returns (result: Word, timed: seq<Task>, readied: seq<Task>)
      requires Valid()
      modifies this`mask, this`ring, this`waiters, this`leaving, ring
      ensures Valid() && result == if magic == MAGIC then mask else BITS_ERR
      ensures magic != MAGIC ==> Value() == old(Value()) && timed == readied == []
      ensures magic == MAGIC ==>
                && Value() == After(old(Value()), Event.Signal(change, m))
                && timed == Woken(old(waiters), mask) && readied == Readied(timed)
                && TreatedUpTo(old(ring), old(waiters), |old(ring)|, Treatment(Met(mask), NewState(), Ready()))
    {
      if magic != MAGIC {
        return BITS_ERR, [], [];
      }
      Exec(change, m);
      result := mask;
      timed, readied := WalkMet(mask);
      leaving := leaving + multiset(timed);
    }

    /** The walk of rt_bits_signal: it takes those off the queue whose test holds. */
    method WalkMet(bits: Word) returns (timed: seq<Task>, readied: seq<Task>)
      requires Valid()
      modifies this`ring, this`waiters, ring
      ensures Valid() && waiters == Kept(old(waiters), bits)
      ensures timed == Woken(old(waiters), bits) && readied == Readied(timed)
      ensures TreatedUpTo(old(ring), old(waiters), |old(ring)|, Treatment(Met(bits), NewState(), Ready()))
    {
      ghost var w := waiters;
      timed, readied := Walk(Treatment(Met(bits), NewState(), Ready()), set n | n in ring);
      WalkedIsFilter(w, |w|, Met(bits), Unmet(bits), Ready());
      assert w[..|w|] == w;
    }

    /** rt_bits_reset: the old mask. Everybody is woken. */
    method Reset(m: Word) returns (result: Word, timed: seq<Task>, readied: seq<Task>)
      requires Valid()
      modifies this`mask, this`ring, this`waiters, this`leaving, ring
      ensures Valid() && result == if magic == MAGIC then old(mask) else BITS_ERR
      ensures magic != MAGIC ==> Value() == old(Value()) && timed == readied == []
      ensures magic == MAGIC ==>
                && Value() == After(old(Value()), Event.Reset(m))
                && timed == old(waiters) && readied == Readied(timed)
                && TreatedUpTo(old(ring), old(waiters), |old(ring)|, Treatment(Anyone(), NewState(), Ready()))
    {
      if magic != MAGIC {
        return BITS_ERR, [], [];
      }
      result := mask;
      mask := m;
      timed, readied := WalkAll();
      leaving := leaving + multiset(timed);
    }

    /** The walk of rt_bits_reset, which spares nobody, and line 240. */
    method WalkAll() returns (timed: seq<Task>, readied: seq<Task>)
      requires Valid()
      modifies this`ring, this`waiters, ring
      ensures Valid() && waiters == [] && ring == [queue] && timed == old(waiters) && readied == Readied(timed)
      ensures TreatedUpTo(old(ring), old(waiters), |old(ring)|, Treatment(Anyone(), NewState(), Ready()))
    {
      ghost var w := waiters;
      timed, readied := Walk(Treatment(Anyone(), NewState(), Ready()), set n | n in ring);
      WalkedIsFilter(w, |w|, Anyone(), Nobody(), Ready());
      assert w[..|w|] == w;
      FilterAll(w, Anyone(), Nobody());
      assert queue in old(ring) && queue.next == queue && queue.prev == queue;
      queue.next := queue;
      queue.prev := queue;
    }

    /** rt_bits_wait up to rt_schedule(): n is the queue member of the calling task. */
    method Wait(n: Node<Link>, t: Task) returns (r: Outcome)
      requires Valid() && n !in ring
      modifies this`mask, this`ring, this`waiters, ring, n
      ensures Valid()
      ensures r == if magic != MAGIC then Failed else if Satisfied(old(mask), t) then Done(old(mask)) else Sleeps
      ensures Value() == if magic == MAGIC then After(old(Value()), Event.Wait(t)) else old(Value())
      ensures r == Sleeps ==> n == ring[|ring| - 1]
    {
      if magic != MAGIC {
        return Failed;
      }
      if !Satisfied(mask, t) {
        n.task := Waits(Queueing(t));
        Enqueue(n);
        r := Sleeps;
      } else {
        r := Done(mask);
        Exec(t.exit, t.exitMask);
      }
    }

    /** enqueue_blocked: in front of the head, that is at the end. */
    method Enqueue(n: Node<Link>)
      requires Valid() && n !in ring && n.task.Waits?
      modifies this`ring, this`waiters, queue`prev, queue.prev`next, n`prev, n`next
      ensures Valid() && ring == old(ring) + [n] && waiters == old(waiters) + [n.task.task]
    {
      InsertBefore(n, queue, ring, |ring|);
      assert Inserted(ring, |ring|, n) == ring + [n];
      ring := ring + [n];
      waiters := waiters + [n.task.task];
    }

    /** rt_bits_wait after rt_schedule(): a woken task runs its exit function. */
    method Resume(n: Node<Link>) returns (r: Outcome)
      requires Valid() && n.task != Head && (n.task.Awake? ==> n.task.task in leaving)
      modifies this`mask, this`leaving
      ensures Valid() && r == if n.task.Waits? || magic != MAGIC then Failed else Done(old(mask))
      ensures Value() == if r == Failed then old(Value()) else After(old(Value()), Leave(n.task.task))
    {
      var resulting := mask;
      if n.task.Waits? || magic != MAGIC {
        return Failed;
      }
      var t := n.task.task;
      Exec(t.exit, t.exitMask);
      leaving := leaving - multiset{t};
      r := Done(resulting);
    }

    /** rt_bits_wait_if */
    method WaitIf(test: Test, m: Word, exit: Change, exitMask: Word) returns (r: Outcome)
      requires Valid()
      modifies this`mask
      ensures Valid()
      ensures r == if magic != MAGIC then Failed
                   else if Holds(old(mask), test, m) then Done(old(mask)) else Refused(old(mask))
      ensures Value() == if magic != MAGIC then old(Value())
                         else After(old(Value()), Event.WaitIf(test, m, exit, exitMask))
    {
      if magic != MAGIC {
        return Failed;
      }
      var resulting := mask;
      if Holds(mask, test, m) {
        Exec(exit, exitMask);
        r := Done(resulting);
      } else {
        r := Refused(resulting);
      }
    }
  }

  /** The head of the ring stands for no task, its members for the waiters in order. */
  ghost predicate Carries(ring: seq<Node<Link>>, waiters: seq<Task>)
    reads ring
  {
    && |ring| == |waiters| + 1 && ring[0].task == Head
    && forall i :: 1 <= i < |ring| ==> ring[i].task == Waits(waiters[i - 1])
  }

  lemma RemovedCarries(ring: seq<Node<Link>>, waiters: seq<Task>, k: nat)
    requires 1 <= k < |ring| == |waiters| + 1 && ring[0].task == Head
    requires forall i :: 1 <= i < |ring| && i != k ==> ring[i].task == Waits(waiters[i - 1])
    ensures Carries(Removed(ring, k), Removed(waiters, k - 1)) && Removed(ring, k)[0] == ring[0]
  {
    RemovedAt(ring, k, 0);
    forall i | 1 <= i < |ring| - 1 ensures Removed(ring, k)[i].task == Waits(Removed(waiters, k - 1)[i - 1]) {
      RemovedAt(ring, k, i);
      RemovedAt(waiters, k - 1, i - 1);
    }
  }

  /** What the members of the ring hold when those before k have been visited. */
  ghost predicate TreatedUpTo(r: seq<Node<Link>>, w: seq<Task>, k: nat, how: Treatment)
    reads r
  {
    && |r| == |w| + 1
    && forall i :: 1 <= i < |r| ==> r[i].task == if i < k then Treated(w[i - 1], how) else Waits(w[i - 1])
  }

  /** What a waiter's queue member holds after the walk. */
  function Treated(t: Task, how: Treatment): Link {
    if how.goes(t) then Awake(t, how.becomes(t)) else Waits(t)
  }

  /** n was woken as t: its state word has lost the bits SEMAPHORE and DELAYED. */
  ghost predicate WokenAs(n: Node<Link>, t: Task)
    reads n
  {
    && n.task.Awake? && n.task.task == t
    && forall b :: 0 <= b < 32 ==> (n.task.state[b] <==> t.state[b] && b != 2 && b != 3)
  }

  /** After a signal those are awake whose test holds, and the others wait as before. */
  lemma MembersAfterSignal(r: seq<Node<Link>>, w: seq<Task>, bits: Word, i: nat)
    requires TreatedUpTo(r, w, |r|, Treatment(Met(bits), NewState(), Ready())) && 1 <= i < |r|
    ensures if Satisfied(bits, w[i - 1]) then WokenAs(r[i], w[i - 1]) else r[i].task == Waits(w[i - 1])
  {
    StateBits(w[i - 1].state);
  }

  /** After a reset all are awake. */
  lemma MembersAfterReset(r: seq<Node<Link>>, w: seq<Task>, i: nat)
    requires TreatedUpTo(r, w, |r|, Treatment(Anyone(), NewState(), Ready())) && 1 <= i < |r|
    ensures WokenAs(r[i], w[i - 1])
  {
    StateBits(w[i - 1].state);
  }

  /** The members from j on are still those from k on of the ring as it was. */
  ghost predicate Ahead(ring: seq<Node<Link>>, r: seq<Node<Link>>, all: set<Node<Link>>, j: nat, k: nat) {
    && 1 <= j <= |ring| && 1 <= k <= |r| && |ring| - j == |r| - k
    && (forall i :: j <= i < |ring| ==> ring[i] == r[i - j + k])
    && forall i :: 0 <= i < |ring| ==> ring[i] in all
  }

  lemma NextAhead(ring: seq<Node<Link>>, r: seq<Node<Link>>, all: set<Node<Link>>, j: nat, k: nat)
    requires Ahead(ring, r, all, j, k) && j < |ring|
    ensures ring[Onward(j, |ring|)] == if k + 1 < |r| then r[k + 1] else ring[0]
  {}

  lemma Reduced(ring: seq<Node<Link>>, r: seq<Node<Link>>, all: set<Node<Link>>, j: nat, k: nat)
    requires Ahead(ring, r, all, j, k) && j < |ring|
    ensures Ahead(Removed(ring, j), r, all, j, k + 1)
  {
    forall i | 0 <= i < |ring| - 1 ensures Removed(ring, j)[i] == if i < j then ring[i] else ring[i + 1] {
      RemovedAt(ring, j, i);
    }
  }

  lemma Advanced(ring: seq<Node<Link>>, r: seq<Node<Link>>, all: set<Node<Link>>, j: nat, k: nat)
    requires Ahead(ring, r, all, j, k) && j < |ring|
    ensures Ahead(ring, r, all, j + 1, k + 1)
  {}

  /** A walk on its way: who is left, how many of them were passed, who was taken off and
      who became ready. */
  datatype Progress<A> = Progress(left: seq<A>, passed: nat, timed: seq<A>, readied: seq<A>)

  /** The walk over w after k of its members. */
  function Walked<A>(w: seq<A>, k: nat, goes: A -> bool, runs: A -> bool): (p: Progress<A>)
    requires k <= |w|
  {
    if k == 0 then Progress(w, 0, [], [])
    else
      var p, a := Walked(w, k - 1, goes, runs), w[k - 1];
      if !goes(a) then p.(passed := p.passed + 1)
      else if p.passed < |p.left| then
        Progress(Removed(p.left, p.passed), p.passed, p.timed + [a], if runs(a) then p.readied + [a] else p.readied)
      else p
  }

  lemma {:induction false} WalkedSize<A>(w: seq<A>, k: nat, goes: A -> bool, runs: A -> bool)
    requires k <= |w|
    ensures var p := Walked(w, k, goes, runs); p.passed <= |p.left| && |p.left| - p.passed == |w| - k
  {
    if k > 0 {
      WalkedSize(w, k - 1, goes, runs);
    }
  }

  lemma WalkedStep<A>(w: seq<A>, k: nat, goes: A -> bool, runs: A -> bool, p: Progress<A>)
    requires k < |w| && p == Walked(w, k, goes, runs)
    ensures p.passed < |p.left|
    ensures goes(w[k]) ==>
              Walked(w, k + 1, goes, runs)
              == Progress(Removed(p.left, p.passed), p.passed, p.timed + [w[k]],
                          if runs(w[k]) then p.readied + [w[k]] else p.readied)
    ensures !goes(w[k]) ==>
              Walked(w, k + 1, goes, runs) == Progress(p.left, p.passed + 1, p.timed, p.readied)
  {
    WalkedSize(w, k, goes, runs);
  }

  predicate Filtered<A(==)>(w: seq<A>, k: nat, goes: A -> bool, stays: A -> bool, runs: A -> bool, p: Progress<A>) {
    && k <= |w| && p.left == Filter(w[..k], stays) + w[k..] && p.passed == |Filter(w[..k], stays)|
    && p.timed == Filter(w[..k], goes) && p.readied == Filter(p.timed, runs)
  }

  lemma FilteredStep<A>(w: seq<A>, k: nat, goes: A -> bool, stays: A -> bool, runs: A -> bool,
                        p: Progress<A>, p': Progress<A>)
    requires Filtered(w, k, goes, stays, runs, p) && k < |w| && stays(w[k]) == !goes(w[k])
    requires p.passed < |p.left|
    requires goes(w[k]) ==> p' == Progress(Removed(p.left, p.passed), p.passed, p.timed + [w[k]],
                                           if runs(w[k]) then p.readied + [w[k]] else p.readied)
    requires !goes(w[k]) ==> p' == Progress(p.left, p.passed + 1, p.timed, p.readied)
    ensures Filtered(w, k + 1, goes, stays, runs, p')
  {
    FilterOneMore(w, k, stays);
    FilterOneMore(w, k, goes);
    ReducedWaiters(Filter(w[..k], stays), w, k);
    OneMore(p.timed, w[k], runs);
  }

  /** The walk as a whole filters. */
  lemma {:induction false} WalkedIsFilter<A>(w: seq<A>, k: nat, goes: A -> bool, stays: A -> bool, runs: A -> bool)
    requires k <= |w| && forall a :: a in w ==> stays(a) == !goes(a)
    ensures Filtered(w, k, goes, stays, runs, Walked(w, k, goes, runs))
  {
    if k == 0 {
      assert w[..0] == [] && [] + w[0..] == w;
    } else {
      WalkedIsFilter(w, k - 1, goes, stays, runs);
      WalkedStep(w, k - 1, goes, runs, Walked(w, k - 1, goes, runs));
      FilteredStep(w, k - 1, goes, stays, runs, Walked(w, k - 1, goes, runs), Walked(w, k, goes, runs));
    }
  }

  function Anyone(): Task -> bool {
    (t: Task) => true
  }

  function Nobody(): Task -> bool {
    (t: Task) => false
  }

  lemma {:induction false} FilterAll<A>(s: seq<A>, p: A -> bool, q: A -> bool)
    requires forall a :: a in s ==> p(a) && !q(a)
    ensures Filter(s, p) == s && Filter(s, q) == []
  {
    if s != [] {
      FilterAll(s[..|s| - 1], p, q);
    }
  }

  lemma OneMore<A>(s: seq<A>, a: A, p: A -> bool)
    ensures Filter(s + [a], p) == if p(a) then Filter(s, p) + [a] else Filter(s, p)
  {
    assert (s + [a])[..|s|] == s;
  }

  lemma ReducedWaiters<A>(kept: seq<A>, w: seq<A>, k: nat)
    requires k < |w|
    ensures Removed(kept + w[k..], |kept|) == kept + w[k + 1..]
    ensures kept + w[k..] == (kept + [w[k]]) + w[k + 1..]
  {}
}
