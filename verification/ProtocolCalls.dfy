/** What the calls on a FIFO do is what they were called for (fifos/rtai_fifos.c:544-661). */
module ProtocolCalls {
  import opened RingBuffer
  import opened SemaphoreSpec
  import opened Protocol
  import opened ProtocolInvariant
  import opened ProtocolTheorems

  /** The place of the last call of a task among the steps, or -1. */
  function LastAt(steps: seq<Step>, t: nat): (i: int)
    ensures -1 <= i < |steps|
    ensures i >= 0 ==> StartsCall(steps[i]) && steps[i].t == t
  {
    if steps == [] then -1
    else
      var n := |steps| - 1;
      if StartsCall(steps[n]) && steps[n].t == t then n else LastAt(steps[..n], t)
  }

  predicate Busy(s: State, t: nat) {
    t in s.tasks && s.tasks[t].pc != Idle
  }

  /** k is on its way through call c. A sender has the message of the call; what a receiver has
      got and what it still has to get is what it asked for; a conditional call is somewhere
      between the test of the semaphore and its release, and awake. */
  predicate OnItsWay(c: Step, k: Task)
    requires StartsCall(c)
  {
    && k.role == c.role
    && (if c.role.Sender? then k.data == c.msg && k.left <= |c.msg| else |k.data| + k.left == c.size)
    && (k.once <==> c.TryCall? || c.once)
    && (c.TryCall? ==>
          && !k.asleep && k.pc != InLine && k.pc != SemSleep && k.pc != Loop && k.pc != SlotSleep)
  }

  ghost predicate CallInv(steps: seq<Step>, s: State, t: nat) {
    Busy(s, t) ==> LastAt(steps, t) >= 0 && OnItsWay(steps[LastAt(steps, t)], s.tasks[t])
  }

  lemma LastAtNext(steps: seq<Step>, a: Step, t: nat)
    ensures LastAt(steps + [a], t) == if StartsCall(a) && a.t == t then |steps| else LastAt(steps, t)
    ensures forall i :: 0 <= i < |steps| ==> (steps + [a])[i] == steps[i]
  {
    assert (steps + [a])[..|steps|] == steps;
  }

  // ----- each step -----

  lemma CallStarts(s: State, a: Step)
    requires StartsCall(a) && Can(s, a)
    ensures OnItsWay(a, Next(s, a).tasks[a.t])
  {}

  lemma CommitGoesOn(s: State, t: nat, c: Step)
    requires Can(s, Commit(t)) && CopyInv(s, t) && StartsCall(c) && OnItsWay(c, s.tasks[t])
    ensures OnItsWay(c, Next(s, Commit(t)).tasks[t])
  {}

  lemma ResumeGoesOn(s: State, t: nat, c: Step)
    requires Inv(s) && Can(s, Resume(t)) && StartsCall(c) && OnItsWay(c, s.tasks[t])
    ensures OnItsWay(c, Next(s, Resume(t)).tasks[t])
  {
    ResumeLocal(s, t);
  }

  lemma CopyGoesOn(s: State, a: Step, c: Step)
    requires (a.ChooseChunk? || a.CopyByte?) && Can(s, a) && StartsCall(c) && OnItsWay(c, s.tasks[a.t])
    ensures OnItsWay(c, Next(s, a).tasks[a.t])
  {}

  lemma TestGoesOn(s: State, a: Step, c: Step)
    requires (a.MarkAsleep? || a.TestLeft? || a.TestCounter?)
    requires Can(s, a) && StartsCall(c) && OnItsWay(c, s.tasks[a.t])
    ensures OnItsWay(c, Next(s, a).tasks[a.t])
  {}

  lemma SignalGoesOn(s: State, a: Step, c: Step)
    requires (a.SignalMailbox? || a.SignalSemaphore?)
    requires Can(s, a) && StartsCall(c) && OnItsWay(c, s.tasks[a.t])
    ensures OnItsWay(c, Next(s, a).tasks[a.t])
  {}

  /** A step of the task itself that does not start a call. */
  lemma OwnStepGoesOn(s: State, a: Step, c: Step)
    requires Inv(s) && Can(s, a) && !StartsCall(a) && !a.Deliver? && StartsCall(c)
    requires OnItsWay(c, s.tasks[a.t])
    ensures OnItsWay(c, Next(s, a).tasks[a.t])
  {
    match a
    case Resume(t) => ResumeGoesOn(s, t, c);
    case Commit(t) =>
      assert CopyInv(s, t);
      CommitGoesOn(s, t, c);
    case ChooseChunk(_) => CopyGoesOn(s, a, c);
    case CopyByte(_) => CopyGoesOn(s, a, c);
    case SignalMailbox(_) => SignalGoesOn(s, a, c);
    case SignalSemaphore(_) => SignalGoesOn(s, a, c);
    case _ => TestGoesOn(s, a, c);
  }

  /** The steps of others change nothing but a sleep. */
  lemma OthersGoOn(s: State, a: Step, t: nat, c: Step)
    requires Can(s, a) && t in s.tasks && (a.Deliver? || a.t != t) && StartsCall(c)
    ensures t in Next(s, a).tasks && Next(s, a).tasks[t].pc == s.tasks[t].pc
    ensures OnItsWay(c, s.tasks[t]) ==> OnItsWay(c, Next(s, a).tasks[t])
  {}

  lemma StaysIdle(s: State, a: Step, t: nat)
    requires Can(s, a) && t in s.tasks && s.tasks[t].pc == Idle && Busy(Next(s, a), t)
    ensures StartsCall(a) && a.t == t
  {}

  lemma StepKeepsCall(steps: seq<Step>, s: State, a: Step, t: nat)
    requires Inv(s) && Can(s, a) && CallInv(steps, s, t)
    ensures CallInv(steps + [a], Next(s, a), t)
  {
    LastAtNext(steps, a, t);
    SameTasks(s, a);
    if Busy(Next(s, a), t) {
      if StartsCall(a) && a.t == t {
        CallStarts(s, a);
      } else if !Busy(s, t) {
        StaysIdle(s, a, t);
      } else if a.Deliver? || a.t != t {
        OthersGoOn(s, a, t, steps[LastAt(steps, t)]);
      } else {
        OwnStepGoesOn(s, a, steps[LastAt(steps, t)]);
      }
    }
  }

  lemma CallGoesOn(steps: seq<Step>, s: State, a: Step, t: nat)
    requires Reached(steps, s) && Can(s, a) && CallInv(steps, s, t)
    ensures CallInv(steps + [a], Next(s, a), t)
  {
    RunKeepsInv(steps, s);
    StepKeepsCall(steps, s, a, t);
  }

  /** Every task in a call is on its way through the last one it made. */
  lemma {:induction false} TasksOnTheirWay(steps: seq<Step>, s: State, t: nat)
    requires Reached(steps, s)
    ensures CallInv(steps, s, t)
    decreases |steps|
  {
    if steps != [] {
      var n := |steps| - 1;
      var before :| Reached(steps[..n], before) && Can(before, steps[n]) && s == Next(before, steps[n]);
      TasksOnTheirWay(steps[..n], before, t);
      CallGoesOn(steps[..n], before, steps[n], t);
      assert steps == steps[..n] + [steps[n]];
    }
  }

  /** A task outside may make any call; a conditional one goes beyond its tests only where the
      semaphore is free. */
  lemma WhoMayCall(s: State, t: nat, role: Role, msg: seq<byte>, size: nat, once: bool, priority: int)
    requires t in s.tasks
    ensures Can(s, Call(t, role, msg, size, once, priority)) <==> !Busy(s, t)
    ensures Can(s, TryCall(t, role, msg, size)) <==> !Busy(s, t) && GateOf(s, role).sem.free
  {}

  /** A call gets its semaphore at once if and only if that is free. */
  lemma CallGetsSemaphore(steps: seq<Step>, s: State, a: Step)
    requires Reached(steps, s) && Can(s, a) && StartsCall(a)
    ensures var g, s' := GateOf(s, a.role), Next(s, a);
            && (GateOf(s', a.role).holder == Some(a.t) <==> g.sem.free) && !GateOf(s', a.role).sem.free
            && Busy(s', a.t) && (InQueue(s', a.t) <==> !g.sem.free)
  {
    RunKeepsInv(steps, s);
    assert GateInv(s, a.role);
    SemaphoreSpec.EnqueuedMembers(GateOf(s, a.role).sem.queue, Waiter(a.t, if a.Call? then a.priority else 0, s.clock));
    if a.Call? && !GateOf(s, a.role).sem.free {
      var q, w := GateOf(s, a.role).sem.queue, Waiter(a.t, a.priority, s.clock);
      assert w in Enqueued(q, w);
    }
  }

  // ----- what this says of each call -----

  predicate InCall(steps: seq<Step>, s: State, t: nat) {
    Busy(s, t) && LastAt(steps, t) >= 0
  }

  /** The call a task is in. */
  function CallOf(steps: seq<Step>, t: nat): (c: Step)
    requires LastAt(steps, t) >= 0
    ensures StartsCall(c) && c.t == t
  {
    steps[LastAt(steps, t)]
  }

  /** Whoever is in a call has made one. */
  lemma BusyIsInCall(steps: seq<Step>, s: State, t: nat)
    requires Reached(steps, s) && Busy(s, t)
    ensures InCall(steps, s, t) && s.tasks[t].role == CallOf(steps, t).role
  {
    TasksOnTheirWay(steps, s, t);
  }

  /** A conditional call never sleeps, neither for the semaphore nor for bytes: from its call
      until it releases the semaphore the task holds it, is awake, and can take its next step. */
  lemma ConditionalCallsNeverWait(steps: seq<Step>, s: State, t: nat)
    requires Reached(steps, s) && InCall(steps, s, t) && CallOf(steps, t).TryCall?
    ensures !s.tasks[t].asleep && s.slot != Some(t) && !InQueue(s, t)
    ensures s.tasks[t].pc != InLine && s.tasks[t].pc != SemSleep
    ensures s.tasks[t].pc != Loop && s.tasks[t].pc != SlotSleep
    ensures GateOf(s, s.tasks[t].role).holder == Some(t)
    ensures Can(s, OwnStep(t, s.tasks[t].pc))
  {
    TasksOnTheirWay(steps, s, t);
    RunKeepsInv(steps, s);
    InsideHolds(s, t);
    assert WakeInv(s, t) && CopyInv(s, t);
    AwakeTasksGoOn(s, t);
  }

  /** In its loop a call releases the semaphore if and only if nothing is left to move, and
      sleeps in the slot if and only if something is and the counter is 0. */
  lemma WaitsForBytes(s: State, t: nat)
    requires Can(s, TestLeft(t))
    ensures var s', k := Next(s, TestLeft(t)), s.tasks[t];
            && (s'.tasks[t].pc == Release <==> k.left == 0)
            && (s'.tasks[t].pc == SlotSleep <==> k.left > 0 && Counter(s, k.role) == 0)
            && (s'.tasks[t].pc == SlotSleep ==> s'.slot == Some(t) && s'.tasks[t].asleep)
  {}

  /** mbx_put and mbx_get are left when all bytes are moved or the counter is 0, and only then. */
  lemma LeavesWhenNothingCanMove(s: State, t: nat)
    requires Can(s, TestCounter(t))
    ensures Next(s, TestCounter(t)).tasks[t].pc == Notify
       <==> s.tasks[t].left == 0 || Counter(s, s.tasks[t].role) == 0
  {}

  /** A memcpy moves all that is wanted, or all there is room or bytes for, or as much as lies
      before the end of the buffer. */
  lemma MovesAsMuchAsPossible(steps: seq<Step>, s: State, t: nat)
    requires Reached(steps, s) && Can(s, ChooseChunk(t))
    ensures var k, pc := s.tasks[t], Next(s, ChooseChunk(t)).tasks[t].pc;
            && pc.Copying? && pc.done == 0 && 0 < pc.n <= k.left && pc.n <= Counter(s, k.role)
            && var at := if k.role.Sender? then s.lbyte else s.fbyte;
               0 <= at && at + pc.n <= |s.buf|
               && (pc.n == k.left || pc.n == Counter(s, k.role) || at + pc.n == |s.buf|)
  {
    RunKeepsInv(steps, s);
    assert CopyInv(s, t);
  }

  /** After mbx_signal a blocking call goes round again; mbx_receive_wjo and the conditional
      calls release the semaphore. */
  lemma GoesRoundAgain(steps: seq<Step>, s: State, t: nat)
    requires Reached(steps, s) && Can(s, SignalMailbox(t))
    ensures LastAt(steps, t) >= 0
    ensures var c := CallOf(steps, t);
            Next(s, SignalMailbox(t)).tasks[t].pc == if c.Call? && !c.once then Loop else Release
  {
    TasksOnTheirWay(steps, s, t);
  }

  /** When a sender releases the semaphore, the stream ends with the first bytes of the message
      it was called with, with all of them after a blocking call. */
  lemma SentAsCalled(steps: seq<Step>, s: State, t: nat) returns (n: nat)
    requires Reached(steps, s) && Can(s, SignalSemaphore(t)) && s.tasks[t].role.Sender?
    ensures LastAt(steps, t) >= 0
    ensures var c := CallOf(steps, t);
            && n == |c.msg| - s.tasks[t].left && s.snd.start <= |s.sent|
            && s.sent == s.sent[..s.snd.start] + c.msg[..n]
            && (c.Call? && !c.once ==> n == |c.msg|)
  {
    TasksOnTheirWay(steps, s, t);
    MessagesStayTogether(steps, s, t);
    n := |CallOf(steps, t).msg| - s.tasks[t].left;
    assert s.tasks[t].once || s.tasks[t].left == 0 by {
      RunKeepsInv(steps, s);
      assert CopyInv(s, t);
    }
  }

  /** When a receiver releases it, it has as many bytes as it asked for, less those it reports
      as left, none after a blocking call. */
  lemma ReceivedAsCalled(steps: seq<Step>, s: State, t: nat)
    requires Reached(steps, s) && Can(s, SignalSemaphore(t)) && s.tasks[t].role.Receiver?
    ensures LastAt(steps, t) >= 0
    ensures var c := CallOf(steps, t);
            && |s.tasks[t].data| + s.tasks[t].left == c.size
            && (c.Call? && !c.once ==> |s.tasks[t].data| == c.size)
  {
    TasksOnTheirWay(steps, s, t);
    assert s.tasks[t].once || s.tasks[t].left == 0 by {
      RunKeepsInv(steps, s);
      assert CopyInv(s, t);
    }
  }

  // ----- in which order the semaphores are given -----

  /** How many blocking calls there are among the first n steps. */
  function Tickets(steps: seq<Step>, n: nat): nat
    requires n <= |steps|
  {
    if n == 0 then 0 else Tickets(steps, n - 1) + if steps[n - 1].Call? then 1 else 0
  }

  lemma {:induction false} TicketsPrefix(steps: seq<Step>, a: Step, n: nat)
    requires n <= |steps|
    ensures Tickets(steps + [a], n) == Tickets(steps, n)
  {
    if n > 0 {
      TicketsPrefix(steps, a, n - 1);
    }
  }

  lemma {:induction false} TicketsGrow(steps: seq<Step>, i: nat, j: nat)
    requires i <= j <= |steps|
    ensures Tickets(steps, i) <= Tickets(steps, j)
    ensures i < j && steps[i].Call? ==> Tickets(steps, i) < Tickets(steps, j)
    decreases j
  {
    if i < j {
      TicketsGrow(steps, i, j - 1);
    }
  }

  /** The record of a waiting task is that of its call. */
  predicate RecordOf(steps: seq<Step>, r: Waiter) {
    var i := LastAt(steps, r.id);
    i >= 0 && steps[i].Call? && r.priority == steps[i].priority && r.ticket == Tickets(steps, i)
  }

  ghost predicate QueueOfCalls(steps: seq<Step>, queue: seq<Waiter>) {
    Ordered(queue) && forall i :: 0 <= i < |queue| ==> RecordOf(steps, queue[i])
  }

  ghost predicate LineInv(steps: seq<Step>, s: State) {
    && s.clock == Tickets(steps, |steps|)
    && QueueOfCalls(steps, s.snd.sem.queue) && QueueOfCalls(steps, s.rcv.sem.queue)
  }

  /** A waiting task makes no new call. */
  lemma RecordStays(steps: seq<Step>, a: Step, r: Waiter)
    requires RecordOf(steps, r) && !(StartsCall(a) && a.t == r.id)
    ensures RecordOf(steps + [a], r)
  {
    LastAtNext(steps, a, r.id);
    TicketsPrefix(steps, a, LastAt(steps, r.id));
  }

  lemma QueueStays(steps: seq<Step>, s: State, a: Step, r: Role)
    requires Inv(s) && Can(s, a) && QueueOfCalls(steps, GateOf(s, r).sem.queue)
    ensures QueueOfCalls(steps + [a], GateOf(s, r).sem.queue)
  {
    var q := GateOf(s, r).sem.queue;
    forall i | 0 <= i < |q| ensures RecordOf(steps + [a], q[i]) {
      assert GateInv(s, r);
      RecordStays(steps, a, q[i]);
    }
  }

  lemma QueueGrows(steps: seq<Step>, queue: seq<Waiter>, w: Waiter)
    requires QueueOfCalls(steps, queue) && RecordOf(steps, w)
    requires forall i :: 0 <= i < |queue| ==> queue[i].ticket < w.ticket
    ensures QueueOfCalls(steps, Enqueued(queue, w))
  {
    EnqueuedStaysOrdered(queue, w);
    SemaphoreSpec.EnqueuedMembers(queue, w);
    forall i | 0 <= i < |queue| + 1 ensures RecordOf(steps, Enqueued(queue, w)[i]) {
      assert Enqueued(queue, w)[i] in Enqueued(queue, w);
    }
  }

  lemma EnqueuedStaysOrdered(queue: seq<Waiter>, w: Waiter)
    requires Ordered(queue) && forall i :: 0 <= i < |queue| ==> queue[i].ticket < w.ticket
    ensures Ordered(Enqueued(queue, w))
  {
    var k := EnqueuedSplits(queue, w);
    assert queue == queue[..k] + queue[k..];
    OrderedInsert(queue[..k], w, queue[k..]);
  }

  lemma OrderedInsert(a: seq<Waiter>, w: Waiter, b: seq<Waiter>)
    requires Ordered(a + b)
    requires forall i :: 0 <= i < |a| ==> Before(a[i], w)
    requires forall i :: 0 <= i < |b| ==> Before(w, b[i])
    ensures Ordered(a + [w] + b)
  {
    var q, e, k := a + b, a + [w] + b, |a|;
    forall i, j | 0 <= i < j < |e| ensures Before(e[i], e[j]) {
      if i != k && j != k {
        var i', j' := if i < k then i else i - 1, if j < k then j else j - 1;
        assert e[i] == q[i'] && e[j] == q[j'];
      }
    }
  }

  lemma TailOfCalls(steps: seq<Step>, queue: seq<Waiter>)
    requires QueueOfCalls(steps, queue) && queue != []
    ensures QueueOfCalls(steps, queue[1..])
  {}

  lemma TicketsBelow(steps: seq<Step>, queue: seq<Waiter>)
    requires QueueOfCalls(steps, queue)
    ensures forall i :: 0 <= i < |queue| ==> queue[i].ticket < Tickets(steps, |steps|)
  {
    forall i | 0 <= i < |queue| ensures queue[i].ticket < Tickets(steps, |steps|) {
      TicketsGrow(steps, LastAt(steps, queue[i].id), |steps|);
    }
  }

  /** How a step changes the queue of a semaphore: a call that finds it taken joins it with its
      own priority, and a release takes the first one off. */
  lemma QueueChanges(s: State, a: Step, r: Role)
    requires Can(s, a)
    ensures var q, q' := GateOf(s, r).sem.queue, GateOf(Next(s, a), r).sem.queue;
            || q' == q
            || (a.Call? && q' == Enqueued(q, Waiter(a.t, a.priority, s.clock)))
            || (a.SignalSemaphore? && q != [] && q' == q[1..])
    ensures Next(s, a).clock == s.clock + if a.Call? then 1 else 0
  {}

  lemma NewRecord(steps: seq<Step>, a: Step)
    requires a.Call?
    ensures RecordOf(steps + [a], Waiter(a.t, a.priority, Tickets(steps, |steps|)))
    ensures Tickets(steps + [a], |steps| + 1) == Tickets(steps, |steps|) + 1
  {
    LastAtNext(steps, a, a.t);
    TicketsPrefix(steps, a, |steps|);
  }

  lemma StepKeepsQueue(steps: seq<Step>, s: State, a: Step, r: Role)
    requires Inv(s) && Can(s, a) && s.clock == Tickets(steps, |steps|) && QueueOfCalls(steps, GateOf(s, r).sem.queue)
    ensures QueueOfCalls(steps + [a], GateOf(Next(s, a), r).sem.queue)
  {
    var q, q' := GateOf(s, r).sem.queue, GateOf(Next(s, a), r).sem.queue;
    QueueChanges(s, a, r);
    QueueStays(steps, s, a, r);
    if a.Call? && q' != q {
      NewRecord(steps, a);
      TicketsBelow(steps, q);
      QueueGrows(steps + [a], q, Waiter(a.t, a.priority, s.clock));
    } else if q' != q {
      TailOfCalls(steps + [a], q);
    }
  }

  lemma ClockCounts(steps: seq<Step>, s: State, a: Step)
    requires Can(s, a) && s.clock == Tickets(steps, |steps|)
    ensures Next(s, a).clock == Tickets(steps + [a], |steps| + 1)
  {
    QueueChanges(s, a, Sender);
    TicketsPrefix(steps, a, |steps|);
  }

  lemma LineGoesOn(steps: seq<Step>, s: State, a: Step)
    requires Reached(steps, s) && Can(s, a) && LineInv(steps, s)
    ensures LineInv(steps + [a], Next(s, a))
  {
    RunKeepsInv(steps, s);
    StepKeepsQueue(steps, s, a, Sender);
    StepKeepsQueue(steps, s, a, Receiver);
    ClockCounts(steps, s, a);
  }

  lemma {:induction false} LinesOfCalls(steps: seq<Step>, s: State)
    requires Reached(steps, s)
    ensures LineInv(steps, s)
    decreases |steps|
  {
    if steps != [] {
      var n := |steps| - 1;
      var before :| Reached(steps[..n], before) && Can(before, steps[n]) && s == Next(before, steps[n]);
      LinesOfCalls(steps[..n], before);
      LineGoesOn(steps[..n], before, steps[n]);
      assert steps == steps[..n] + [steps[n]];
    }
  }

  /** The call of t is to be served before that of u: of higher priority, or of the same and
      made earlier. */
  predicate CalledFirst(steps: seq<Step>, t: nat, u: nat) {
    var i, j := LastAt(steps, t), LastAt(steps, u);
    && i >= 0 && j >= 0 && steps[i].Call? && steps[j].Call?
    && (steps[i].priority > steps[j].priority || (steps[i].priority == steps[j].priority && i < j))
  }

  lemma RecordsCompare(steps: seq<Step>, a: Waiter, b: Waiter)
    requires RecordOf(steps, a) && RecordOf(steps, b) && Before(a, b)
    ensures CalledFirst(steps, a.id, b.id)
  {
    var i, j := LastAt(steps, a.id), LastAt(steps, b.id);
    if j <= i {
      TicketsGrow(steps, j, i);
    }
  }

  /** A semaphore that is released goes to a task that waits for it, the one to be served first
      by the priorities they called with; if nobody waits it becomes free. */
  lemma HighestPriorityFirst(steps: seq<Step>, s: State, t: nat, u: nat)
    requires Reached(steps, s) && Can(s, SignalSemaphore(t))
    requires Busy(s, u) && u != t && s.tasks[u].role == s.tasks[t].role
    ensures var g := GateOf(Next(s, SignalSemaphore(t)), s.tasks[t].role);
            && g.holder.Some? && !g.sem.free && Busy(s, g.holder.value) && g.holder.value != t
            && s.tasks[g.holder.value].role == s.tasks[t].role
            && (g.holder.value != u ==> CalledFirst(steps, g.holder.value, u))
  {
    var r := s.tasks[t].role;
    var q := GateOf(s, r).sem.queue;
    RunKeepsInv(steps, s);
    InsideHolds(s, t);
    LinesOfCalls(steps, s);
    assert Queued(q, u);
    var i :| 0 <= i < |q| && q[i].id == u;
    if i > 0 {
      assert Before(q[0], q[i]);
      RecordsCompare(steps, q[0], q[i]);
    }
  }
}
